/** The preview line `update_preview` shows under the form: the argument
    vector joined by single spaces. */
module PreviewLine {
  import opened Text
  import opened Command
  import opened ArgvProperties

  /** The text the preview widget is created with, before any event. */
  const InitialPreview := "ping [target]"

  /** A table whose boxes are all unchecked contributes no flag. */
  lemma {:induction false} FlagTokensNone(form: Form, table: seq<(FlagBox, string)>)
    requires forall j :: 0 <= j < |table| ==> !Checked(form, table[j].0)
    ensures FlagTokens(form, table) == []
  {
    if table != [] {
      assert !Checked(form, table[0].0);
      FlagTokensNone(form, table[1..]);
    }
  }

  /** A table whose inputs are all empty or whitespace contributes no pair. */
  lemma {:induction false} ValueTokensNone(form: Form, table: seq<(ValueBox, string)>)
    requires forall j :: 0 <= j < |table| ==> AllSpace(Entry(form, table[j].0))
    ensures ValueTokens(form, table) == []
  {
    if table != [] {
      StripEmpty(Entry(form, table[0].0));
      ValueTokensNone(form, table[1..]);
    }
  }

  /** Nothing checked and nothing but whitespace typed anywhere. */
  predicate Blank(form: Form) {
    (forall b :: !Checked(form, b)) &&
    (forall v :: AllSpace(Entry(form, v))) &&
    AllSpace(form.target)
  }

  /** A blank form yields the bare program and the placeholder. */
  lemma BlankFormArgv(form: Form)
    requires Blank(form)
    ensures Argv(form) == [Program, Placeholder]
  {
    FlagTokensNone(form, FlagTable);
    ValueTokensNone(form, ValueTable);
    StripEmpty(form.target);
  }

  /** The preview of a blank form, the untouched form the app starts with
      among them, agrees with the text the preview widget is created with. */
  lemma BlankFormPreview(form: Form)
    requires Blank(form)
    ensures Preview(form) == InitialPreview
  {
    BlankFormArgv(form);
    PlaceholderLine();
  }

  /** The bare program and placeholder join to the initial text. */
  lemma PlaceholderLine()
    ensures Join([Program, Placeholder]) == InitialPreview
  {
    assert Join([Program, Placeholder]) == Program + " " + Placeholder;
  }

  /** When no input and not the target holds a space, splitting the preview
      on spaces gives back the argument vector. */
  lemma PreviewSplitsBack(form: Form)
    requires forall v :: ' ' !in Entry(form, v)
    requires ' ' !in form.target
    ensures Split(Preview(form)) == Argv(form)
  {
    var argv := Argv(form);
    var spaceless := (t: string) => ' ' !in t;
    FlagTableRows();
    ValueTableRows();
    StripKeepsCharacters(form.target);
    forall v: ValueBox {
      StripKeepsCharacters(Entry(form, v));
    }
    ArgvAll(form, spaceless);
    forall k | 0 <= k < |argv| ensures ' ' !in argv[k] {
      assert argv[k] in argv;
    }
    SplitJoin(argv);
  }

  /** A text with no whitespace at either end is its own strip. */
  lemma StripTidy(s: string)
    requires Tidy(s)
    ensures Strip(s) == s
  {
    assert s[..0] == [] && s[|s|..] == [] && s[0..|s|] == s;
    StripUnique(s, 0, |s|);
  }

  /** The value part of a form whose only filled inputs come first in the
      table. */
  lemma LeadingValues(form: Form, n: nat)
    requires n <= |ValueTable|
    requires forall j :: n <= j < |ValueTable| ==> Entry(form, ValueTable[j].0) == ""
    ensures ValueTokens(form, ValueTable) == ValueTokens(form, ValueTable[..n])
  {
    var t := ValueTable;
    forall j | 0 <= j < |t[n..]| ensures AllSpace(Entry(form, t[n..][j].0)) {
      assert t[n..][j] == t[n + j];
    }
    ValueTokensNone(form, t[n..]);
    ValueTokensSplit(form, t, n);
  }

  /** The value part over a table is the value part over a prefix followed
      by the value part over the rest. */
  lemma {:induction false} ValueTokensSplit(form: Form, table: seq<(ValueBox, string)>, n: nat)
    requires n <= |table|
    ensures ValueTokens(form, table) == ValueTokens(form, table[..n]) + ValueTokens(form, table[n..])
  {
    if n > 0 {
      ValueTokensSplit(form, table[1..], n - 1);
      assert table[..n][1..] == table[1..][..n - 1];
      assert table[1..][n - 1..] == table[n..];
      AppendAssoc(ValuePart(form, table[0]), ValueTokens(form, table[1..][..n - 1]), ValueTokens(form, table[n..]));
    } else {
      assert table[..0] == [] && table[0..] == table;
    }
  }

  /** Concatenation regroups. */
  lemma AppendAssoc(a: seq<string>, b: seq<string>, c: seq<string>)
    ensures a + (b + c) == a + b + c
  {
  }

  /** The argument vector of a form with only a count and a target. */
  lemma CountOnlyArgv(form: Form)
    requires forall b :: !Checked(form, b)
    requires forall j :: 1 <= j < |ValueTable| ==> Entry(form, ValueTable[j].0) == ""
    requires form.valN != "" && Strip(form.valN) == form.valN
    requires form.target != "" && Strip(form.target) == form.target
    ensures Argv(form) == [Program, "-n", form.valN, form.target]
  {
    FlagTokensNone(form, FlagTable);
    LeadingValues(form, 1);
    FirstValue(form);
    AssembleArgv(form, ["-n", form.valN]);
    Line4(Program, "-n", form.valN, form.target);
  }

  /** A four-token vector written as program, values and target. */
  lemma Line4(a: string, b: string, c: string, d: string)
    ensures [a] + [b, c] + [d] == [a, b, c, d]
  {
  }

  /** The argument vector of a form with no box checked and a trimmed,
      non-empty target, from its value part. */
  lemma AssembleArgv(form: Form, values: seq<string>)
    requires FlagTokens(form, FlagTable) == [] && ValueTokens(form, ValueTable) == values
    requires form.target != "" && Strip(form.target) == form.target
    ensures Argv(form) == [Program] + values + [form.target]
  {
    assert TargetToken(form.target) == form.target;
    DropEmptyFlags(FlagTokens(form, FlagTable), values, form.target);
  }

  /** An empty flag part leaves the program, values and target. */
  lemma DropEmptyFlags(flags: seq<string>, values: seq<string>, t: string)
    requires flags == []
    ensures [Program] + flags + values + [t] == [Program] + values + [t]
  {
  }

  /** The pair of the first value row when it holds trimmed text. */
  lemma FirstValue(form: Form)
    requires form.valN != "" && Strip(form.valN) == form.valN
    ensures ValueTokens(form, ValueTable[..1]) == ["-n", form.valN]
  {
    var t := ValueTable[..1];
    assert t == [(ValN, "-n")];
    assert t[1..] == [];
  }

  /** The argument vector of a form with only a count, a size and a target. */
  lemma CountAndSizeArgv(form: Form)
    requires forall b :: !Checked(form, b)
    requires forall j :: 2 <= j < |ValueTable| ==> Entry(form, ValueTable[j].0) == ""
    requires form.valN != "" && Strip(form.valN) == form.valN
    requires form.valL != "" && Strip(form.valL) == form.valL
    requires form.target != "" && Strip(form.target) == form.target
    ensures Argv(form) == [Program, "-n", form.valN, "-l", form.valL, form.target]
  {
    FlagTokensNone(form, FlagTable);
    LeadingValues(form, 2);
    FirstTwoValues(form);
    AssembleArgv(form, ["-n", form.valN, "-l", form.valL]);
    Line6(Program, "-n", form.valN, "-l", form.valL, form.target);
  }

  /** A six-token vector written as program, values and target. */
  lemma Line6(a: string, b: string, c: string, d: string, e: string, f: string)
    ensures [a] + [b, c, d, e] + [f] == [a, b, c, d, e, f]
  {
  }

  /** The pairs of the first two value rows when both hold trimmed text. */
  lemma FirstTwoValues(form: Form)
    requires form.valN != "" && Strip(form.valN) == form.valN
    requires form.valL != "" && Strip(form.valL) == form.valL
    ensures ValueTokens(form, ValueTable[..2]) == ["-n", form.valN, "-l", form.valL]
  {
    var t := ValueTable[..2];
    assert t == [(ValN, "-n"), (ValL, "-l")];
    assert t[1..][1..] == [];
    assert ValueTokens(form, t[1..]) == ["-l", form.valL];
  }

  /** The inputs a form built from the blank one by filling a count, a
      size and a target leaves empty. */
  lemma FilledFromBlank(n: string, l: string, host: string)
    ensures var f := EmptyForm.(valN := n, valL := l, target := host);
      (forall b :: !Checked(f, b)) &&
      (forall j :: 2 <= j < |ValueTable| ==> Entry(f, ValueTable[j].0) == "")
    ensures var f := EmptyForm.(valN := n, target := host);
      (forall b :: !Checked(f, b)) &&
      (forall j :: 1 <= j < |ValueTable| ==> Entry(f, ValueTable[j].0) == "")
  {
    var f := EmptyForm.(valN := n, valL := l, target := host);
    var g := EmptyForm.(valN := n, target := host);
    ValueTableRows();
    forall b ensures !Checked(f, b) && !Checked(g, b) {
      match b
      case _ => {}
    }
    forall j | 1 <= j < |ValueTable| ensures Entry(g, ValueTable[j].0) == ""
      && (j >= 2 ==> Entry(f, ValueTable[j].0) == "")
    {
      assert ValueTable[j].0 != ValueTable[0].0;
      assert j >= 2 ==> ValueTable[j].0 != ValueTable[1].0;
      match ValueTable[j].0
      case _ => {}
    }
  }

  /** Without that condition the preview does not determine the command: a
      count of `n -l l` and a count of `n` with a size of `l` show the same
      line but run different argument vectors. */
  lemma PreviewCanBeAmbiguous(n: string, l: string, host: string)
    requires Tidy(n) && Tidy(l) && Tidy(host)
    ensures var f1 := EmptyForm.(valN := n + " -l " + l, target := host);
            var f2 := EmptyForm.(valN := n, valL := l, target := host);
            Preview(f1) == Preview(f2) && Argv(f1) != Argv(f2)
  {
    var nl := n + " -l " + l;
    var f1 := EmptyForm.(valN := nl, target := host);
    var f2 := EmptyForm.(valN := n, valL := l, target := host);
    assert nl[0] == n[0] && nl[|nl| - 1] == l[|l| - 1];
    StripTidy(nl);
    StripTidy(n);
    StripTidy(l);
    StripTidy(host);
    FilledFromBlank(nl, l, host);
    FilledFromBlank(n, l, host);
    CountOnlyArgv(f1);
    CountAndSizeArgv(f2);
    JoinFour(Program, "-n", nl, host);
    JoinSix(Program, "-n", n, "-l", l, host);
    Regroup(n, l, host);
  }

  /** Joining four tokens. */
  lemma JoinFour(a: string, b: string, c: string, d: string)
    ensures Join([a, b, c, d]) == a + " " + (b + " " + (c + " " + d))
  {
    var ts := [a, b, c, d];
    JoinCons(ts);
    JoinCons(ts[1..]);
    JoinCons(ts[2..]);
    assert ts[3..] == [d];
  }

  /** Joining six tokens. */
  lemma JoinSix(a: string, b: string, c: string, d: string, e: string, f: string)
    ensures Join([a, b, c, d, e, f]) == a + " " + (b + " " + (c + " " + (d + " " + (e + " " + f))))
  {
    var ts := [a, b, c, d, e, f];
    JoinCons(ts);
    JoinCons(ts[1..]);
    JoinCons(ts[2..]);
    JoinCons(ts[3..]);
    JoinCons(ts[4..]);
    assert ts[5..] == [f];
  }

  /** The spaces around `-l` in a joined line can be read as belonging to
      one token or as separators. */
  lemma Regroup(n: string, l: string, host: string)
    ensures n + " " + ("-l" + " " + (l + " " + host)) == (n + " -l " + l) + " " + host
  {
    assert " " + "-l" + " " == " -l ";
  }

  /** Joining puts a space after the first token. */
  lemma JoinCons(ts: seq<string>)
    requires |ts| > 1
    ensures Join(ts) == ts[0] + " " + Join(ts[1..])
  {
  }
}
