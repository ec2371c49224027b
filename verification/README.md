# docker-mdns registration lifecycle, in Dafny

docker-mdns watches Docker container lifecycle events and announces
container hostnames over mDNS through the Avahi daemon's D-Bus API. A
container opts in with labels. `docker-mdns.enable=true` switches publishing
on. `docker-mdns.host` lists the hostnames, separated by whitespace.
`docker-mdns.interface` optionally names the network interface whose
addresses are announced. A `start` event publishes the container's hostnames
in a fresh Avahi entry group. A `die` event withdraws that group.

This project models the part of the program that decides what to publish and
keeps track of what has been published:

- `Words` (`words.dfy`): Rust's `str::split_whitespace`, which turns the host
  label into hostnames. It is defined by recursion. An independent
  characterisation pins it down: a string splits into `ws` exactly when it is
  `ws` laid out between runs of Unicode whitespace.
- `Mdns` (`mdns.dfy`): `State` and `Config` from `src/mdns/`. This is the
  label interpreter, reached from an event actor or from a container-listing
  entry.
- `MdnsLegacy` (`mdns_legacy.dfy`): the older duplicate `MdnsConfig` and
  `MdnsState` in `src/mdnsconfig.rs`. It is proved to agree with `Mdns` on
  every input.
- `Actions` (`actions.dfy`): the classification of event actions into `Die`,
  `Start` and `Other`.
- `Registration` (`registration.dfy`): the `Bus`. It holds the map from
  container id to entry-group path and issues the `EntryGroupNew`,
  `AddAddress`, `Commit`, `Reset` and `Free` calls. An operation is a pure
  function from (state, config, daemon reply, address lookup) to
  (outcome, new state, calls issued in order). The daemon's reply is an input:
  the path `EntryGroupNew` returns, and the index of the first call that
  fails, if any. `Publish` is stated declaratively: the planned call sequence,
  cut at the first failure. `PublishLoop` follows the source's early
  returns and nested loops (`FillGroup`, `AddressLoop`, `HostLoop`) and is
  proved equal to it.
- `Dispatch` (`dispatch.dfy`): `handler` in `src/main.rs` and the startup
  loop that publishes the scanned containers in order.
- `Bollard` and `Wrappers`: the shapes of bollard's `EventActor`,
  `ContainerSummary` and `EventMessage`, plus `Option` and map lookup.

The model follows the code in three places a reader might not expect:

- A present but blank host label (`hosts == Some([])`) is not a no-op. The
  group is still created, committed with no addresses, and recorded
  (`BlankHostsStillCommit`).
- Host names are a list, not a set. Duplicates are kept and each one is
  published.
- Re-publishing an id replaces its map entry without resetting or freeing the
  old group (`RepublishReplaces`).

`src/main.rs` builds its config with the legacy `MdnsConfig`, while
`src/bus.rs` takes `mdns::Config` and calls an accessor `override_interface()`.
`src/mdns/config.rs` names that accessor `interface()`. The model has one
canonical `Config` whose `interface` field serves both names. `Dispatch.Handle`
builds the config with the legacy interpreter, converts it, and relies on
`MdnsLegacy.AgreesWithMdns` to state its contract in terms of `Mdns.FromActor`.

## Model

| member | source | states |
|---|---|---|
| `Words.SplitWhitespace` | src/mdns/config.rs:78-84 | every hostname the host label yields is non-empty and contains no whitespace |
| `Words.SplitCharacterised` | src/mdns/config.rs:80-83 | the split of `s` is `ws` if and only if `ws` are words and `s` is exactly `ws` in order, separated by non-empty whitespace runs, with optional leading and trailing whitespace; so no empty tokens, order kept, duplicates kept |
| `Words.SplitKeepsText` | src/mdns/config.rs:80-83 | the hostnames, concatenated, are the label's non-whitespace characters in their original order |
| `Words.SplitEmptyIffBlank` | src/mdns/config.rs:80-83 | the label yields no hostnames exactly when it is all whitespace, the empty label included |
| `Words.TwoWords` | src/mdns/config.rs:80-83 | two words joined by one space split back into exactly those two words |
| `Words.SplitExample` | src/mdns/config.rs:80-83 | `"a  b\tc"` splits into `a`, `b`, `c` |
| `Mdns.DefaultState` | src/mdns/state.rs:8-12 | the default state is not enabled |
| `Mdns.StateFrom` | src/mdns/state.rs:14-20 | the state is `Enabled` exactly when the label value is present and equal to `"true"` |
| `Mdns.EnableIsCaseSensitive` | src/mdns/state.rs:16-19 | `"True"`, `"TRUE"`, `"1"`, `""` and absence all give `Disabled` |
| `Mdns.DefaultConfig` | src/mdns/config.rs:13-27 | the derived default config has no hosts, an empty id, no interface and is not enabled |
| `Mdns.IsEnabled` | src/mdns/config.rs:32-34 | a config is enabled exactly when its state is not the default state |
| `Mdns.FromActor` | src/mdns/config.rs:50-95 | the id is the actor's id, which must be present. Enabled iff the enable label is exactly `"true"`. Hosts present iff the host label is, and then its whitespace split. Interface present iff the interface label is, and then its value. No attributes gives disabled, no hosts, no interface |
| `Mdns.FromSummary` | src/mdns/config.rs:100-113 | a listing entry is interpreted exactly as an event actor with the same id and labels |
| `Mdns.NoAttributesIsDefault` | src/mdns/config.rs:59-67 | an actor without attributes gives the default config carrying its id, which is disabled |
| `Mdns.OnlyRecognisedLabels` | src/mdns/config.rs:71-73 | two label maps that agree on the three recognised keys give the same config; every other label is ignored |
| `Mdns.InertLabelsGiveDefault` | src/mdns/config.rs:122-143 | labels that do not enable and name no host or interface give the default config with the container's id, from an event or from a listing |
| `Mdns.EnableFalseIsDefault` | src/mdns/config.rs:122-143 | the unit test's case: `enable = "false"` on container `abc123` gives the default config with that id |
| `MdnsLegacy.DefaultState` | src/mdnsconfig.rs:17-21 | the legacy default state is not enabled |
| `MdnsLegacy.StateFrom` | src/mdnsconfig.rs:23-30 | the legacy state is `Enabled` exactly on `Some("true")` |
| `MdnsLegacy.DefaultConfig` | src/mdnsconfig.rs:32-38 | the derived legacy default config has no hosts, an empty id, no interface and is not enabled |
| `MdnsLegacy.IsEnabled` | src/mdnsconfig.rs:41-43 | a legacy config is enabled exactly when its state is not the default state |
| `MdnsLegacy.FromActor` | src/mdnsconfig.rs:58-97 | the legacy config copies the id, which must be present. No attributes gives disabled with no hosts or interface. Enabled iff `"true"`. Hosts are the split host label, absent iff the label is. Interface is the interface label |
| `MdnsLegacy.FromSummary` | src/mdnsconfig.rs:102-116 | the legacy listing conversion equals the legacy actor conversion on the same id and labels |
| `MdnsLegacy.AgreesWithMdns` | src/mdnsconfig.rs:58-97 | on every actor with an id, the legacy config equals the current `Mdns.FromActor` config once `MdnsState` and `State` are identified |
| `MdnsLegacy.SummaryAgreesWithMdns` | src/mdnsconfig.rs:102-116 | the same agreement for listing entries |
| `Actions.Classify` | src/action.rs:14-22 | `Die` iff the action is `Some("die")`, `Start` iff `Some("start")`, `Other` for everything else including `None`; total |
| `Actions.OtherActions` | src/action.rs:16-20 | `None`, `""`, `"pause"`, `"stop"` and `"Start"` are all `Other` |
| `Registration.InterfaceFor` | src/bus.rs:127-129 | addresses come from the container's override interface if it has one, else from the default interface |
| `Registration.Publish` | src/bus.rs:95-158 | disabled or host-less configs issue nothing, succeed and leave the map alone. A successful run starts with `EntryGroupNew`, has only `AddAddress` calls in between, and ends with `Commit`. It then maps the id to the new group, replacing any earlier entry. A failed run leaves the map unchanged, and a run that fails on a call ends with that call (the failed address lookup, which ends after `EntryGroupNew` with no call failing, is `PublishNoAddresses`). The map changes only after a successful `Commit`. Publish never resets or frees. Every `AddAddress` carries the group, the cached interface index, `PROTO_UNSPEC` = -1, `FLAG_NO_REVERSE` = 16, one of the hosts and one of the chosen interface's addresses |
| `Registration.PublishLoop` | src/bus.rs:95-158 | the source's early returns and address-outer, host-inner loops, each call's failure ending the operation, produce exactly the result, state and call sequence `Publish` describes |
| `Registration.FillGroup` | src/bus.rs:134-157 | once the group exists and the addresses are known, the loops and `Commit` give the planned calls cut just after the failing one with the map unchanged, or, when nothing fails, all planned calls with the id mapped to the group |
| `Registration.AddressLoop` | src/bus.rs:134-149 | after `EntryGroupNew`, the outer loop runs the inner loop for each address in order; it reports a failure exactly when the scheduled failure falls inside those calls, and then stops right after the failing call |
| `Registration.HostLoop` | src/bus.rs:137-148 | the inner loop appends one `AddAddress` per host, in order, and stops right after the first failing call; it reports a failure exactly when one falls inside its calls |
| `Registration.PublishSucceeds` | src/bus.rs:115-157 | an enabled config with hosts, addresses found and no failing call gives `Ok`, exactly the planned calls, and the id mapped to the new group |
| `Registration.PublishFailsAt` | src/bus.rs:115-151 | once the interface's addresses are known, when planned call `k` fails (`EntryGroupNew` for `k` = 0), publish returns that call's error, issues the planned calls up to and including it and nothing after, and leaves the map unchanged |
| `Registration.PublishGroupNewFails` | src/bus.rs:115-118 | a failing `EntryGroupNew` ends the publish at once: exactly that one call, its error, the map unchanged |
| `Registration.PublishNoAddresses` | src/bus.rs:132 | when the interface's addresses cannot be listed, publish fails with that interface named in the error after exactly the one call `EntryGroupNew`, and the map is unchanged |
| `Registration.AddressCallsOrder` | src/bus.rs:134-149 | the unrolled loops hold one `AddAddress` per (address, host) slot. Slot `(i, j)`, at position `Slot(i, j, number of hosts)`, adds host `j` at address `i` |
| `Registration.SlotIsProduct` | src/bus.rs:134-149 | the slot of inner iteration `j` in outer iteration `i` is i times the number of hosts plus j |
| `Registration.PublishOrder` | src/bus.rs:115-151 | a successful publish issues exactly one `EntryGroupNew`, then the `AddAddress` calls in address-outer, host-inner order, one per (address, host) pair, then exactly one `Commit`: number of addresses times number of hosts plus two calls in all |
| `Registration.BlankHostsStillCommit` | src/bus.rs:102-155 | with `hosts == Some([])` and no failure, the group is still created, committed and recorded |
| `Registration.Unpublish` | src/bus.rs:160-183 | the id's entry is removed whatever happens next. Other entries are untouched. An absent id succeeds with no calls. Otherwise `Reset` then `Free` of the recorded group are issued, stopping right after the first failure, which is returned. Success needs both |
| `Registration.UnpublishTwice` | src/bus.rs:165-168 | a second unpublish of the same id issues nothing and succeeds, whatever the first one did |
| `Registration.RepublishReplaces` | src/bus.rs:155 | two successful publishes of one id leave exactly one entry for it, pointing at the second group, and the first group is never reset or freed |
| `Registration.PublishThenUnpublish` | src/bus.rs:155-178 | after a successful publish, unpublish takes the map back to its old state without that id, resets the group that was committed, and frees it unless the reset fails; it succeeds exactly when neither call fails |
| `Registration.OperationsKeepCommitted` | src/bus.rs:151-165 | if a `Commit` for every recorded group was issued earlier in the call log, that still holds after any publish or unpublish (the log records issued calls, failed ones included) |
| `Dispatch.Handle` | src/main.rs:29-51 | `Other` actions and events without an actor succeed with no calls and no change. `die` unpublishes and `start` publishes the config built from the actor. The bus's result is returned unchanged. The actor's id is required only for events acted upon |
| `Dispatch.HandleKeepsCommitted` | src/main.rs:29-51 | the handler preserves "a `Commit` was issued for every recorded group" |
| `Dispatch.PublishAll` | src/main.rs:82-85 | each publish of the startup pass runs against its own daemon reply and address lookup, since addresses may change between publishes (src/bus.rs:131-132). The pass never drops an entry and only adds entries for listed ids. When it succeeds, every enabled listed config with a host label is recorded |
| `Dispatch.StartupPublish` | src/main.rs:82-85 | the loop as written, with `?` after each publish, computes exactly `PublishAll` |
| `Dispatch.StartupStep` | src/main.rs:83-85 | one turn of the loop: the publish of config `k` either ends the pass with its error and calls, or hands its state and calls on to the pass over the remaining configs |
| `Dispatch.PublishAllAppend` | src/main.rs:83-85 | the startup pass over `xs + ys` is the pass over `xs` followed, only if that succeeded, by the pass over `ys` from the state it left, with the calls in that order |
| `Dispatch.StopsAtFirstError` | src/main.rs:83-85 | when the configs before position `k` publish cleanly and the one at `k` fails, the pass returns that error and issues nothing for the configs after `k` |
| `Dispatch.StartScenario` | src/main.rs:43-48 | a `start` event for labels `enable=true`, `host="foo.local bar.local"` on `eth0` with address 10.0.0.5 issues `EntryGroupNew`, `AddAddress` for each host, then `Commit`, and records the group |
| `Dispatch.DieScenario` | src/main.rs:47 | a `die` event for a container never published succeeds with no calls |

## Left out

- The D-Bus transport is not modelled: `zbus::Connection`, `Proxy`, `call_method` and reply decoding. Each daemon call is an entry in the returned call list. Its outcome comes from the `Reply` input, which gives the group path `EntryGroupNew` returns and the index of the first failing call. Building a `Proxy` (src/bus.rs:108-113, 120-125, 170-175) is treated as infallible, because it is transport set-up and not a daemon call.
- `Bus::new` and `avahi_interface_index_from_name` (src/bus.rs:51-93) are not modelled. The interface index and the default interface name are fields of the `Bus` value, given at construction.
- `interface_addresses` and `get_if_addrs` (src/bus.rs:29-41) are not modelled. They enumerate the operating system's interfaces. They are replaced by the `AddressLookup` parameter, where `None` stands for a failed enumeration. The startup pass takes one lookup per publish, so the addresses may differ from one publish to the next. Addresses are opaque strings, which stands in for `IpAddr::to_string`.
- src/docker.rs is not part of this model: the bollard client, the event stream and the container listing are network I/O. The startup scan's label and status filters are applied by the Docker daemon. So `Dispatch.PublishAll` takes the already-built configs.
- `main()` is not modelled: argument parsing, logging set-up and the event loop that feeds `handler` (src/main.rs:53-78, 88-95) are process plumbing. The model has `Handle` for one event, and invariants such as `HandleKeepsCommitted` carry over to any sequence of events.
- `Debug` formatting and log calls are not modelled.
- The panics on a missing container id (src/mdns/config.rs:56, 104; src/mdnsconfig.rs:63, 106) are preconditions, not error results. The `unreachable!()` arm in `handler` is unreachable by construction.
- The async/sync difference between `src/bus.rs` and `src/main.rs` is not modelled. Every operation runs to completion before the next begins.
- Daemon replies do not depend on earlier calls. Nothing assumes that the daemon hands out distinct group paths, so properties that need that, such as "an unreferenced group is never reset later", are not stated.
