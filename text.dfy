/** String helpers the command builder relies on: Python's `str.strip()`
    with no argument, `" ".join(tokens)` and `str.split(" ")`. */
module Text {

  /** The code point ranges of the characters Python's `str.isspace()`
      accepts: the controls U+0009..U+000D and U+001C..U+001F, the ASCII
      space, and the Unicode separators. */
  const WhitespaceRanges: seq<(char, char)> := [
    ('\t', '\r'), ('\U{1C}', ' '), ('\U{85}', '\U{85}'), ('\U{A0}', '\U{A0}'),
    ('\U{1680}', '\U{1680}'), ('\U{2000}', '\U{200A}'), ('\U{2028}', '\U{2029}'),
    ('\U{202F}', '\U{202F}'), ('\U{205F}', '\U{205F}'), ('\U{3000}', '\U{3000}')
  ]

  /** `c` lies in one of the inclusive ranges `rs`. */
  predicate InRanges(c: char, rs: seq<(char, char)>) {
    rs != [] && (rs[0].0 <= c <= rs[0].1 || InRanges(c, rs[1..]))
  }

  /** Python's `str.isspace()` for one character. */
  predicate IsSpace(c: char) {
    InRanges(c, WhitespaceRanges)
  }

  /** InRanges holds exactly when some range contains `c`. */
  lemma {:induction false} InRangesSpec(c: char, rs: seq<(char, char)>)
    ensures InRanges(c, rs) <==> exists k :: 0 <= k < |rs| && rs[k].0 <= c <= rs[k].1
  {
    if rs != [] {
      InRangesSpec(c, rs[1..]);
      if InRanges(c, rs[1..]) {
        var k :| 0 <= k < |rs[1..]| && rs[1..][k].0 <= c <= rs[1..][k].1;
        assert rs[k + 1] == rs[1..][k];
      }
      if exists k :: 0 < k < |rs| && rs[k].0 <= c <= rs[k].1 {
        var k :| 0 < k < |rs| && rs[k].0 <= c <= rs[k].1;
        assert rs[1..][k - 1] == rs[k];
      }
    }
  }

  /** The whitespace characters, listed one by one. */
  lemma IsSpaceCharacters(c: char)
    ensures IsSpace(c) <==>
      c == ' ' || ('\t' <= c <= '\r') || ('\U{1C}' <= c <= '\U{1F}') ||
      c == '\U{85}' || c == '\U{A0}' || c == '\U{1680}' ||
      ('\U{2000}' <= c <= '\U{200A}') || c == '\U{2028}' || c == '\U{2029}' ||
      c == '\U{202F}' || c == '\U{205F}' || c == '\U{3000}'
  {
    var rs := WhitespaceRanges;
    InRangesSpec(c, rs);
    if '\t' <= c <= '\r' { assert rs[0].0 <= c <= rs[0].1; }
    else if '\U{1C}' <= c <= ' ' { assert rs[1].0 <= c <= rs[1].1; }
    else if c == '\U{85}' { assert rs[2].0 <= c <= rs[2].1; }
    else if c == '\U{A0}' { assert rs[3].0 <= c <= rs[3].1; }
    else if c == '\U{1680}' { assert rs[4].0 <= c <= rs[4].1; }
    else if '\U{2000}' <= c <= '\U{200A}' { assert rs[5].0 <= c <= rs[5].1; }
    else if '\U{2028}' <= c <= '\U{2029}' { assert rs[6].0 <= c <= rs[6].1; }
    else if c == '\U{202F}' { assert rs[7].0 <= c <= rs[7].1; }
    else if c == '\U{205F}' { assert rs[8].0 <= c <= rs[8].1; }
    else if c == '\U{3000}' { assert rs[9].0 <= c <= rs[9].1; }
    else if IsSpace(c) {
      var k :| 0 <= k < |rs| && rs[k].0 <= c <= rs[k].1;
      assert k in {0, 1, 2, 3, 4, 5, 6, 7, 8, 9};
    }
  }

  /** No printable ASCII character but the space is whitespace. */
  lemma PrintableNotSpace()
    ensures forall c :: '!' <= c <= '~' ==> !IsSpace(c)
  {
    forall c | '!' <= c <= '~' ensures !IsSpace(c) {
      InRangesSpec(c, WhitespaceRanges);
    }
  }

  predicate AllSpace(s: string) {
    forall k :: 0 <= k < |s| ==> IsSpace(s[k])
  }

  /** `s` with its leading whitespace removed. */
  function TrimStart(s: string): string {
    if s != [] && IsSpace(s[0]) then TrimStart(s[1..]) else s
  }

  /** `s` with its trailing whitespace removed. */
  function TrimEnd(s: string): string {
    if s != [] && IsSpace(s[|s| - 1]) then TrimEnd(s[..|s| - 1]) else s
  }

  /** TrimStart keeps a suffix of `s`, cuts off only whitespace, and what it
      keeps does not start with whitespace. */
  lemma {:induction false} TrimStartSpec(s: string)
    ensures var r := TrimStart(s);
      |r| <= |s| && r == s[|s| - |r|..] && AllSpace(s[..|s| - |r|]) && (r == [] || !IsSpace(r[0]))
  {
    if s != [] && IsSpace(s[0]) {
      TrimStartSpec(s[1..]);
      var r := TrimStart(s);
      assert s[..|s| - |r|] == [s[0]] + s[1..][..|s| - 1 - |r|];
    }
  }

  /** TrimEnd keeps a prefix of `s`, cuts off only whitespace, and what it
      keeps does not end with whitespace. */
  lemma {:induction false} TrimEndSpec(s: string)
    ensures var r := TrimEnd(s);
      |r| <= |s| && r == s[..|r|] && AllSpace(s[|r|..]) && (r == [] || !IsSpace(r[|r| - 1]))
  {
    if s != [] && IsSpace(s[|s| - 1]) {
      TrimEndSpec(s[..|s| - 1]);
      var r := TrimEnd(s);
      assert s[|r|..] == s[..|s| - 1][|r|..] + [s[|s| - 1]];
    }
  }

  /** Python's `s.strip()`. */
  function Strip(s: string): string {
    TrimEnd(TrimStart(s))
  }

  /** Nothing is left of `s` after stripping exactly when `s` is all
      whitespace. */
  lemma StripEmpty(s: string)
    ensures Strip(s) == [] <==> AllSpace(s)
  {
    var t := TrimStart(s);
    TrimStartSpec(s);
    TrimEndSpec(t);
    if TrimEnd(t) == [] {
      assert t == [] && s == s[..|s| - |t|];
    }
  }

  /** A stripped string neither starts nor ends with whitespace. */
  lemma StripHasNoOuterSpace(s: string)
    ensures var r := Strip(s); r == [] || (!IsSpace(r[0]) && !IsSpace(r[|r| - 1]))
  {
    var t := TrimStart(s);
    TrimStartSpec(s);
    TrimEndSpec(t);
    var r := TrimEnd(t);
    if r != [] {
      assert r[0] == t[0];
    }
  }

  /** Stripping introduces no character that was not in `s`. */
  lemma StripKeepsCharacters(s: string)
    ensures forall k :: 0 <= k < |Strip(s)| ==> Strip(s)[k] in s
  {
    var t := TrimStart(s);
    TrimStartSpec(s);
    TrimEndSpec(t);
    var r := TrimEnd(t);
    forall k | 0 <= k < |r| ensures r[k] in s {
      assert r[k] == t[k] == s[|s| - |t| + k];
    }
  }

  /** Stripping keeps a contiguous run of `s`, and all it removes on either
      side is whitespace. */
  lemma StripIsTrimmedSlice(s: string)
    ensures exists i :: 0 <= i <= |s| - |Strip(s)| && Strip(s) == s[i..i + |Strip(s)|]
                        && AllSpace(s[..i]) && AllSpace(s[i + |Strip(s)|..])
  {
    var t := TrimStart(s);
    TrimStartSpec(s);
    TrimEndSpec(t);
    var r := TrimEnd(t);
    var i := |s| - |t|;
    assert r == s[i..i + |r|];
    assert AllSpace(s[i + |r|..]) by {
      assert s[i + |r|..] == t[|r|..];
    }
  }

  /** TrimStart stops at the first character that is not whitespace. */
  lemma {:induction false} TrimStartAt(s: string, i: nat)
    requires i <= |s| && AllSpace(s[..i]) && (i < |s| ==> !IsSpace(s[i]))
    ensures TrimStart(s) == s[i..]
  {
    if i > 0 {
      assert IsSpace(s[..i][0]);
      assert s[1..][..i - 1] == s[..i][1..];
      TrimStartAt(s[1..], i - 1);
      assert s[1..][i - 1..] == s[i..];
    }
  }

  /** TrimEnd stops at the last character that is not whitespace. */
  lemma {:induction false} TrimEndAt(s: string, j: nat)
    requires j <= |s| && AllSpace(s[j..]) && (0 < j ==> !IsSpace(s[j - 1]))
    ensures TrimEnd(s) == s[..j]
  {
    if j < |s| {
      assert IsSpace(s[j..][|s| - 1 - j]);
      var u := s[..|s| - 1];
      assert u[j..] == s[j..][..|s| - 1 - j];
      TrimEndAt(u, j);
      assert u[..j] == s[..j];
    }
  }

  /** Any trimmed slice of `s` cut between whitespace-only margins is
      `Strip(s)`: the definition of stripping, independent of how it is
      computed. */
  lemma StripUnique(s: string, i: nat, j: nat)
    requires i <= j <= |s|
    requires AllSpace(s[..i]) && AllSpace(s[j..])
    requires i < j ==> !IsSpace(s[i]) && !IsSpace(s[j - 1])
    ensures Strip(s) == s[i..j]
  {
    if i < j {
      TrimStartAt(s, i);
      var t := s[i..];
      assert t[j - i..] == s[j..] && t[j - i - 1] == s[j - 1];
      TrimEndAt(t, j - i);
      assert t[..j - i] == s[i..j];
    } else {
      StripEmpty(s);
      assert AllSpace(s) by {
        forall k | 0 <= k < |s| ensures IsSpace(s[k]) {
          if k < i { assert s[k] == s[..i][k]; } else { assert s[k] == s[j..][k - j]; }
        }
      }
    }
  }

  /** Python's `" ".join(ts)`. */
  function Join(ts: seq<string>): string {
    if ts == [] then ""
    else if |ts| == 1 then ts[0]
    else ts[0] + " " + Join(ts[1..])
  }

  /** Index of the first space in `s`. */
  function FirstSpace(s: string): (i: nat)
    requires ' ' in s
    ensures i < |s| && s[i] == ' ' && ' ' !in s[..i]
  {
    if s[0] == ' ' then 0
    else
      assert ' ' in s[1..] by { var k :| 0 <= k < |s| && s[k] == ' '; assert s[1..][k - 1] == ' '; }
      var i := 1 + FirstSpace(s[1..]);
      assert s[..i] == [s[0]] + s[1..][..i - 1];
      i
  }

  /** Python's `s.split(" ")`: the pieces between single spaces. */
  function Split(s: string): seq<string>
    decreases |s|
  {
    if ' ' in s then
      var i := FirstSpace(s);
      [s[..i]] + Split(s[i + 1..])
    else
      [s]
  }

  /** Splitting a joined line on spaces gives the tokens back when no
      token holds a space. */
  lemma {:induction false} SplitJoin(ts: seq<string>)
    requires ts != []
    requires forall k :: 0 <= k < |ts| ==> ' ' !in ts[k]
    ensures Split(Join(ts)) == ts
  {
    if |ts| > 1 {
      var t := ts[0];
      var s := Join(ts);
      assert s == t + " " + Join(ts[1..]);
      assert s[|t|] == ' ';
      var i := FirstSpace(s);
      assert i == |t|;
      assert s[..i] == t;
      assert s[i + 1..] == Join(ts[1..]);
      SplitJoin(ts[1..]);
    }
  }

  /** Joining the pieces of a split puts the string back together. */
  lemma {:induction false} JoinSplit(s: string)
    ensures Join(Split(s)) == s
    decreases |s|
  {
    if ' ' in s {
      var i := FirstSpace(s);
      JoinSplit(s[i + 1..]);
      assert Split(s[i + 1..]) != [];
      assert s == s[..i] + " " + s[i + 1..];
    }
  }
}
