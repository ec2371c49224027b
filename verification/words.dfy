/** Rust's `str::split_whitespace`, which turns the `docker-mdns.host` label
    into the list of hostnames.  The splitter is defined by recursion on the
    string and then characterised independently: a string splits into `ws`
    exactly when it is `ws` laid out between runs of whitespace. */
module Words {

  /** Unicode White_Space, the property `char::is_whitespace` tests. */
  predicate IsWhitespace(c: char) {
    var n := c as int;
    || (0x09 <= n <= 0x0D) || n == 0x20 || n == 0x85 || n == 0xA0 || n == 0x1680
    || (0x2000 <= n <= 0x200A) || n == 0x2028 || n == 0x2029 || n == 0x202F
    || n == 0x205F || n == 0x3000
  }

  /** Every character of `s` is whitespace (the empty string included). */
  predicate Blank(s: string) {
    forall i :: 0 <= i < |s| ==> IsWhitespace(s[i])
  }

  /** A token `split_whitespace` can yield: non-empty, with no whitespace. */
  predicate IsWord(w: string) {
    |w| > 0 && forall i :: 0 <= i < |w| ==> !IsWhitespace(w[i])
  }

  predicate AllWords(ws: seq<string>) {
    forall k :: 0 <= k < |ws| ==> IsWord(ws[k])
  }

  /** Length of the longest whitespace-free prefix of `s`. */
  function WordLength(s: string): (n: nat)
    ensures n <= |s|
    ensures forall i :: 0 <= i < n ==> !IsWhitespace(s[i])
    ensures n < |s| ==> IsWhitespace(s[n])
  {
    if |s| == 0 || IsWhitespace(s[0]) then 0 else 1 + WordLength(s[1..])
  }

  /** The maximal whitespace-free runs of `s`, left to right. */
  function SplitWhitespace(s: string): (ws: seq<string>)
    ensures AllWords(ws)
    decreases |s|
  {
    if |s| == 0 then []
    else if IsWhitespace(s[0]) then SplitWhitespace(s[1..])
    else
      var n := WordLength(s);
      [s[..n]] + SplitWhitespace(s[n..])
  }

  /** `gaps[0] + ws[0] + gaps[1] + ... + ws[|ws|-1] + gaps[|ws|]`. */
  function Layout(ws: seq<string>, gaps: seq<string>): string
    requires |gaps| == |ws| + 1
    decreases |ws|
  {
    if |ws| == 0 then gaps[0] else gaps[0] + ws[0] + Layout(ws[1..], gaps[1..])
  }

  /** `gaps` can stand between the words `ws`: all whitespace, and the
      inner gaps, which keep two words apart, non-empty. */
  predicate Separates(ws: seq<string>, gaps: seq<string>) {
    && |gaps| == |ws| + 1
    && (forall i :: 0 <= i < |gaps| ==> Blank(gaps[i]))
    && (forall i :: 0 < i < |ws| ==> |gaps[i]| > 0)
  }

  /** Concatenation of a list of strings. */
  function Concat(ws: seq<string>): string {
    if |ws| == 0 then [] else ws[0] + Concat(ws[1..])
  }

  /** `s` with every whitespace character removed. */
  function Strip(s: string): string {
    if |s| == 0 then []
    else if IsWhitespace(s[0]) then Strip(s[1..])
    else [s[0]] + Strip(s[1..])
  }

  lemma {:induction false} SplitBlankPrefix(w: string, s: string)
    requires Blank(w)
    ensures SplitWhitespace(w + s) == SplitWhitespace(s)
    decreases |w|
  {
    if |w| > 0 {
      assert (w + s)[0] == w[0] && IsWhitespace(w[0]);
      assert (w + s)[1..] == w[1..] + s;
      assert Blank(w[1..]) by {
        forall i | 0 <= i < |w[1..]| ensures IsWhitespace(w[1..][i]) {
          assert w[1..][i] == w[i + 1];
        }
      }
      SplitBlankPrefix(w[1..], s);
      assert SplitWhitespace(w + s) == SplitWhitespace((w + s)[1..]);
    } else {
      assert w + s == s;
    }
  }

  lemma SplitWordPrefix(t: string, s: string)
    requires IsWord(t)
    requires |s| == 0 || IsWhitespace(s[0])
    ensures SplitWhitespace(t + s) == [t] + SplitWhitespace(s)
  {
    var u := t + s;
    var n := WordLength(u);
    assert forall i :: 0 <= i < |t| ==> u[i] == t[i];
    assert |s| > 0 ==> u[|t|] == s[0];
    assert n == |t|;
    assert u[..n] == t && u[n..] == s;
  }

  /** Splitting a layout gives back its words. */
  lemma {:induction false} SplitLayout(ws: seq<string>, gaps: seq<string>)
    requires AllWords(ws)
    requires Separates(ws, gaps)
    ensures SplitWhitespace(Layout(ws, gaps)) == ws
    decreases |ws|
  {
    if |ws| == 0 {
      SplitBlankPrefix(gaps[0], []);
      assert gaps[0] + [] == gaps[0];
    } else {
      var rest := Layout(ws[1..], gaps[1..]);
      SeparatesTail(ws, gaps);
      SplitLayout(ws[1..], gaps[1..]);
      LayoutTailStart(ws, gaps);
      SplitWordPrefix(ws[0], rest);
      assert Layout(ws, gaps) == gaps[0] + (ws[0] + rest);
      SplitBlankPrefix(gaps[0], ws[0] + rest);
    }
  }

  lemma SeparatesTail(ws: seq<string>, gaps: seq<string>)
    requires |ws| > 0 && Separates(ws, gaps)
    ensures Separates(ws[1..], gaps[1..])
  {
    forall i | 0 < i < |ws[1..]| ensures |gaps[1..][i]| > 0 {
      assert gaps[1..][i] == gaps[i + 1];
    }
  }

  /** What follows the first word of a layout starts with whitespace. */
  lemma LayoutTailStart(ws: seq<string>, gaps: seq<string>)
    requires |ws| > 0 && Separates(ws, gaps)
    ensures var rest := Layout(ws[1..], gaps[1..]);
            |rest| == 0 || IsWhitespace(rest[0])
  {
    var rest := Layout(ws[1..], gaps[1..]);
    if |ws| > 1 {
      assert rest == gaps[1] + (ws[1] + Layout(ws[2..], gaps[2..]));
      assert rest[0] == gaps[1][0];
    } else {
      assert rest == gaps[1];
    }
  }

  /** Two words with a single space between them split back into the two. */
  lemma TwoWords(a: string, b: string)
    requires IsWord(a) && IsWord(b)
    ensures SplitWhitespace(a + " " + b) == [a, b]
  {
    var ws := [a, b];
    var gaps := ["", " ", ""];
    assert IsWhitespace(' ');
    assert Blank(" ");
    SplitLayout(ws, gaps);
    assert ws[1..][1..] == [];
    assert Layout(ws[1..][1..], gaps[1..][1..]) == "";
    assert Layout(ws, gaps) == "" + a + (" " + b + "");
    assert "" + a + (" " + b + "") == a + " " + b;
  }

  lemma {:induction false} LayoutWiden(ws: seq<string>, gaps: seq<string>, p: string)
    requires |gaps| == |ws| + 1
    ensures Layout(ws, [p + gaps[0]] + gaps[1..]) == p + Layout(ws, gaps)
  {
    var g' := [p + gaps[0]] + gaps[1..];
    assert g'[1..] == gaps[1..];
  }

  /** The whitespace runs of `s`, one before each word and one after the last. */
  function Gaps(s: string): (gaps: seq<string>)
    ensures |gaps| == |SplitWhitespace(s)| + 1
    decreases |s|
  {
    if |s| == 0 then
      [""]
    else if IsWhitespace(s[0]) then
      var g := Gaps(s[1..]);
      [[s[0]] + g[0]] + g[1..]
    else
      [""] + Gaps(s[WordLength(s)..])
  }

  /** `Gaps(s)` separates the words of `s` and lays them out back into `s`. */
  lemma {:induction false} GapsLayout(s: string)
    ensures Separates(SplitWhitespace(s), Gaps(s))
    ensures |s| > 0 && IsWhitespace(s[0]) ==> |Gaps(s)[0]| > 0
    ensures Layout(SplitWhitespace(s), Gaps(s)) == s
    decreases |s|
  {
    if |s| > 0 {
      if IsWhitespace(s[0]) {
        var g := Gaps(s[1..]);
        assert SplitWhitespace(s) == SplitWhitespace(s[1..]);
        assert Gaps(s) == [[s[0]] + g[0]] + g[1..];
        GapsLayout(s[1..]);
        GapsBlankStep(s[0], s[1..], SplitWhitespace(s[1..]), g);
        assert [s[0]] + s[1..] == s;
      } else {
        var n := WordLength(s);
        var rest := s[n..];
        assert SplitWhitespace(s) == [s[..n]] + SplitWhitespace(rest);
        assert Gaps(s) == [""] + Gaps(rest);
        assert |rest| > 0 ==> IsWhitespace(rest[0]);
        GapsLayout(rest);
        GapsWordStep(s[..n], rest, SplitWhitespace(rest), Gaps(rest));
        assert s[..n] + rest == s;
      }
    }
  }

  /** A whitespace character joins the first gap. */
  lemma GapsBlankStep(c: char, rest: string, ws: seq<string>, g: seq<string>)
    requires IsWhitespace(c)
    requires Separates(ws, g) && Layout(ws, g) == rest
    ensures var g' := [[c] + g[0]] + g[1..];
            Separates(ws, g') && |g'[0]| > 0 && Layout(ws, g') == [c] + rest
  {
    var g' := [[c] + g[0]] + g[1..];
    var w := [c] + g[0];
    assert Blank(w) by {
      assert Blank(g[0]);
      forall i | 0 <= i < |w| ensures IsWhitespace(w[i]) {
        if i > 0 {
          assert w[i] == g[0][i - 1];
        }
      }
    }
    assert forall i :: 0 < i < |g'| ==> g'[i] == g[i];
    LayoutWiden(ws, g, [c]);
  }

  /** A word goes in front, with an empty gap before it. */
  lemma GapsWordStep(w: string, rest: string, ws: seq<string>, g: seq<string>)
    requires Separates(ws, g) && Layout(ws, g) == rest
    requires |ws| > 0 ==> |g[0]| > 0
    ensures Separates([w] + ws, [""] + g) && Layout([w] + ws, [""] + g) == w + rest
  {
    var g' := [""] + g;
    var ws' := [w] + ws;
    assert g'[1..] == g && ws'[1..] == ws;
    assert forall i :: 0 < i < |g'| ==> g'[i] == g[i - 1];
    assert Layout(ws', g') == "" + w + Layout(ws, g);
    assert "" + w == w;
  }

  /** The independent characterisation: `split_whitespace(s) == ws` exactly
      when `s` is the words `ws`, in order, separated by whitespace runs. */
  lemma SplitCharacterised(s: string, ws: seq<string>)
    ensures SplitWhitespace(s) == ws <==>
              AllWords(ws) && exists gaps :: Separates(ws, gaps) && Layout(ws, gaps) == s
  {
    if SplitWhitespace(s) == ws {
      var g := Gaps(s);
      GapsLayout(s);
      assert Separates(ws, g) && Layout(ws, g) == s;
    }
    if AllWords(ws) && exists gaps :: Separates(ws, gaps) && Layout(ws, gaps) == s {
      var gaps :| Separates(ws, gaps) && Layout(ws, gaps) == s;
      SplitLayout(ws, gaps);
    }
  }

  lemma {:induction false} StripAppend(a: string, b: string)
    ensures Strip(a + b) == Strip(a) + Strip(b)
    decreases |a|
  {
    if |a| > 0 {
      assert (a + b)[0] == a[0];
      assert (a + b)[1..] == a[1..] + b;
      StripAppend(a[1..], b);
      if IsWhitespace(a[0]) {
        assert Strip(a + b) == Strip((a + b)[1..]);
      } else {
        assert Strip(a + b) == [a[0]] + Strip((a + b)[1..]);
        assert Strip(a) == [a[0]] + Strip(a[1..]);
      }
    } else {
      assert a + b == b;
    }
  }

  lemma {:induction false} StripWord(w: string)
    requires forall i :: 0 <= i < |w| ==> !IsWhitespace(w[i])
    ensures Strip(w) == w
    decreases |w|
  {
    if |w| > 0 {
      StripWord(w[1..]);
      assert [w[0]] + w[1..] == w;
    }
  }

  /** No character is lost or reordered: the words, glued together, are the
      non-whitespace characters of `s` in their original order. */
  lemma {:induction false} SplitKeepsText(s: string)
    ensures Concat(SplitWhitespace(s)) == Strip(s)
    decreases |s|
  {
    if |s| > 0 {
      if IsWhitespace(s[0]) {
        SplitKeepsText(s[1..]);
      } else {
        var n := WordLength(s);
        SplitKeepsText(s[n..]);
        assert s == s[..n] + s[n..];
        StripAppend(s[..n], s[n..]);
        StripWord(s[..n]);
        var ws := SplitWhitespace(s);
        assert ws[0] == s[..n] && ws[1..] == SplitWhitespace(s[n..]);
      }
    }
  }

  /** An all-whitespace label (the empty one included) gives no words, and
      only such a label does. */
  lemma {:induction false} SplitEmptyIffBlank(s: string)
    ensures SplitWhitespace(s) == [] <==> Blank(s)
    decreases |s|
  {
    if |s| > 0 {
      SplitEmptyIffBlank(s[1..]);
      if IsWhitespace(s[0]) {
        if Blank(s[1..]) {
          assert forall i :: 0 < i < |s| ==> s[i] == s[1..][i - 1];
        }
        if Blank(s) {
          assert forall i :: 0 <= i < |s[1..]| ==> s[1..][i] == s[i + 1];
        }
      }
    }
  }

  /** Runs of mixed separators give no empty words. */
  lemma SplitExample()
    ensures SplitWhitespace("a  b\tc") == ["a", "b", "c"]
  {
    SplitLayout(["a", "b", "c"], ["", "  ", "\t", ""]);
    assert Layout(["a", "b", "c"], ["", "  ", "\t", ""]) == "a  b\tc";
  }
}
