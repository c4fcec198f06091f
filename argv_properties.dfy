/** What the builder promises about the argument vector: its shape and
    length, the order and multiplicity of the flags, how value options are
    paired with their trimmed text, what trimming makes irrelevant, how one
    checkbox toggles one token. */
module ArgvProperties {
  import opened Text
  import opened Command

  // ---------------------------------------------------------------------
  // Vocabulary

  /** The flag tokens of the boolean options, in the order they are declared. */
  const FlagOrder: seq<string> := ["-t", "-a", "-f", "-4", "-6", "-p"]

  /** The flag tokens of the value options, in the order they are declared. */
  const ValueOrder: seq<string> := ["-n", "-l", "-w", "-i", "-S", "-v", "-r", "-c"]

  /** How many checkboxes are checked, counted field by field. */
  function NumChecked(form: Form): nat {
    (if form.flagT then 1 else 0) + (if form.flagA then 1 else 0) +
    (if form.flagF then 1 else 0) + (if form.flag4 then 1 else 0) +
    (if form.flag6 then 1 else 0) + (if form.flagP then 1 else 0)
  }

  /** How many value inputs are non-empty once trimmed, counted field by
      field. */
  function NumFilled(form: Form): nat {
    Filled(form.valN) + Filled(form.valL) + Filled(form.valW) + Filled(form.valI) +
    Filled(form.valS) + Filled(form.valV) + Filled(form.valR) + Filled(form.valC)
  }

  /** 1 for an input with something left after trimming, 0 otherwise. */
  function Filled(text: string): nat {
    if Strip(text) != "" then 1 else 0
  }

  /** A token that is not empty and has no whitespace at either end. */
  predicate Tidy(t: string) {
    t != [] && !IsSpace(t[0]) && !IsSpace(t[|t| - 1])
  }

  /** `a` is `b` with some elements left out, the rest kept in order. */
  predicate IsSubsequence<T(==)>(a: seq<T>, b: seq<T>)
    decreases |b|
  {
    a == [] || (b != [] && ((a[0] == b[0] && IsSubsequence(a[1..], b[1..])) || IsSubsequence(a, b[1..])))
  }

  /** The elements at positions 0, 2, 4, ... */
  function Evens<T>(s: seq<T>): seq<T>
    decreases |s|
  {
    if s == [] then [] else if |s| == 1 then [s[0]] else [s[0]] + Evens(s[2..])
  }

  /** The elements at positions 1, 3, 5, ... */
  function Odds<T>(s: seq<T>): seq<T>
    decreases |s|
  {
    if |s| < 2 then [] else [s[1]] + Odds(s[2..])
  }

  function TokensOf<B>(table: seq<(B, string)>): seq<string> {
    if table == [] then [] else [table[0].1] + TokensOf(table[1..])
  }

  predicate DistinctTokens<B>(table: seq<(B, string)>) {
    forall i, j :: 0 <= i < j < |table| ==> table[i].1 != table[j].1
  }

  /** Dropping the first row keeps the tokens distinct. */
  lemma DistinctTail<B>(table: seq<(B, string)>)
    requires table != [] && DistinctTokens(table)
    ensures DistinctTokens(table[1..])
  {
    var rest := table[1..];
    forall i, j | 0 <= i < j < |rest| ensures rest[i].1 != rest[j].1 {
      assert rest[i] == table[i + 1] && rest[j] == table[j + 1];
    }
  }

  /** With distinct tokens, the first row's token is carried by no later row. */
  lemma HeadTokenNotInTail<B>(table: seq<(B, string)>)
    requires table != [] && DistinctTokens(table)
    ensures forall j :: 0 <= j < |table[1..]| ==> table[1..][j].1 != table[0].1
  {
    forall j | 0 <= j < |table[1..]| ensures table[1..][j].1 != table[0].1 {
      assert table[1..][j] == table[j + 1];
    }
  }

  function CountChecked(form: Form, table: seq<(FlagBox, string)>): nat {
    if table == [] then 0 else (if Checked(form, table[0].0) then 1 else 0) + CountChecked(form, table[1..])
  }

  function CountFilled(form: Form, table: seq<(ValueBox, string)>): nat {
    if table == [] then 0 else Filled(Entry(form, table[0].0)) + CountFilled(form, table[1..])
  }

  // ---------------------------------------------------------------------
  // The two tables

  lemma FlagTableOrder()
    ensures TokensOf(FlagTable) == FlagOrder
  {
    var t := FlagTable;
    assert TokensOf(t[6..]) == [];
    assert TokensOf(t[5..]) == ["-p"];
    assert TokensOf(t[4..]) == ["-6", "-p"];
    assert TokensOf(t[3..]) == ["-4", "-6", "-p"];
    assert TokensOf(t[2..]) == ["-f", "-4", "-6", "-p"];
    assert TokensOf(t[1..]) == ["-a", "-f", "-4", "-6", "-p"];
  }

  /** The boolean rows name distinct boxes and carry distinct flags, none
      of them holding whitespace. */
  lemma FlagTableRows()
    ensures DistinctTokens(FlagTable)
    ensures forall i, j :: 0 <= i < j < |FlagTable| ==> FlagTable[i].0 != FlagTable[j].0
    ensures forall j :: 0 <= j < |FlagTable| ==> Tidy(FlagTable[j].1) && ' ' !in FlagTable[j].1
  {
    PrintableNotSpace();
    var t := FlagTable;
    forall i, j | 0 <= i < j < |t| ensures t[i].1 != t[j].1 {
      assert t[i].1[1] != t[j].1[1];
    }
  }

  lemma NumCheckedCounts(form: Form)
    ensures CountChecked(form, FlagTable) == NumChecked(form)
  {
    var t := FlagTable;
    assert CountChecked(form, t[6..]) == 0;
    assert CountChecked(form, t[5..]) == CountChecked(form, t[6..]) + (if form.flagP then 1 else 0);
    assert CountChecked(form, t[4..]) == CountChecked(form, t[5..]) + (if form.flag6 then 1 else 0);
    assert CountChecked(form, t[3..]) == CountChecked(form, t[4..]) + (if form.flag4 then 1 else 0);
    assert CountChecked(form, t[2..]) == CountChecked(form, t[3..]) + (if form.flagF then 1 else 0);
    assert CountChecked(form, t[1..]) == CountChecked(form, t[2..]) + (if form.flagA then 1 else 0);
  }

  lemma ValueTableOrder()
    ensures TokensOf(ValueTable) == ValueOrder
  {
    var t := ValueTable;
    assert TokensOf(t[8..]) == [];
    assert TokensOf(t[7..]) == ["-c"];
    assert TokensOf(t[6..]) == ["-r", "-c"];
    assert TokensOf(t[5..]) == ["-v", "-r", "-c"];
    assert TokensOf(t[4..]) == ["-S", "-v", "-r", "-c"];
    assert TokensOf(t[3..]) == ["-i", "-S", "-v", "-r", "-c"];
    assert TokensOf(t[2..]) == ["-w", "-i", "-S", "-v", "-r", "-c"];
    assert TokensOf(t[1..]) == ["-l", "-w", "-i", "-S", "-v", "-r", "-c"];
  }

  /** The value rows name distinct inputs and carry distinct flags, none of
      them holding whitespace. */
  lemma ValueTableRows()
    ensures DistinctTokens(ValueTable)
    ensures forall i, j :: 0 <= i < j < |ValueTable| ==> ValueTable[i].0 != ValueTable[j].0
    ensures forall j :: 0 <= j < |ValueTable| ==> Tidy(ValueTable[j].1) && ' ' !in ValueTable[j].1
  {
    PrintableNotSpace();
    var t := ValueTable;
    forall i, j | 0 <= i < j < |t| ensures t[i].1 != t[j].1 {
      assert t[i].1[1] != t[j].1[1];
    }
  }

  /** One step of CountFilled along a suffix of the table. */
  lemma CountFilledStep(form: Form, table: seq<(ValueBox, string)>, k: nat)
    requires k < |table|
    ensures CountFilled(form, table[k..]) == Filled(Entry(form, table[k].0)) + CountFilled(form, table[k + 1..])
  {
    assert table[k..][1..] == table[k + 1..];
  }

  lemma NumFilledCounts(form: Form)
    ensures CountFilled(form, ValueTable) == NumFilled(form)
  {
    var t := ValueTable;
    assert t[0..] == t;
    CountFilledStep(form, t, 0);
    CountFilledStep(form, t, 1);
    CountFilledStep(form, t, 2);
    CountFilledStep(form, t, 3);
    CountFilledStep(form, t, 4);
    CountFilledStep(form, t, 5);
    CountFilledStep(form, t, 6);
    CountFilledStep(form, t, 7);
    assert t[8..] == [];
  }

  // ---------------------------------------------------------------------
  // The flag part, over any table

  lemma {:induction false} FlagTokensLength(form: Form, table: seq<(FlagBox, string)>)
    ensures |FlagTokens(form, table)| == CountChecked(form, table)
  {
    if table != [] {
      FlagTokensLength(form, table[1..]);
    }
  }

  /** A token no row of the table carries is never emitted. */
  lemma {:induction false} FlagTokensOnlyFromTable(form: Form, table: seq<(FlagBox, string)>, x: string)
    requires forall j :: 0 <= j < |table| ==> table[j].1 != x
    ensures x !in FlagTokens(form, table)
  {
    if table != [] {
      FlagTokensOnlyFromTable(form, table[1..], x);
    }
  }

  /** With distinct tokens, row `k`'s flag occurs once if its box is
      checked and not at all otherwise. */
  lemma {:induction false} FlagTokenCount(form: Form, table: seq<(FlagBox, string)>, k: nat)
    requires DistinctTokens(table) && k < |table|
    ensures multiset(FlagTokens(form, table))[table[k].1] == if Checked(form, table[k].0) then 1 else 0
  {
    var rest := table[1..];
    var x := table[k].1;
    DistinctTail(table);
    if k == 0 {
      HeadTokenNotInTail(table);
      FlagTokensOnlyFromTable(form, rest, x);
    } else {
      FlagTokenCount(form, rest, k - 1);
      assert rest[k - 1] == table[k];
      assert table[0].1 != x;
    }
    FlagTokensCountStep(form, table, x);
  }

  /** Counting a token in the flag part row by row. */
  lemma FlagTokensCountStep(form: Form, table: seq<(FlagBox, string)>, x: string)
    requires table != []
    ensures multiset(FlagTokens(form, table))[x]
         == (if Checked(form, table[0].0) && table[0].1 == x then 1 else 0)
          + multiset(FlagTokens(form, table[1..]))[x]
  {
    CountInConcat(FlagPart(form, table[0]), FlagTokens(form, table[1..]), x);
  }

  /** Occurrences in a concatenation add up. */
  lemma CountInConcat(a: seq<string>, b: seq<string>, x: string)
    ensures multiset(a + b)[x] == multiset(a)[x] + multiset(b)[x]
  {
  }

  /** The emitted flags keep the table's order. */
  lemma {:induction false} FlagTokensInOrder(form: Form, table: seq<(FlagBox, string)>)
    ensures IsSubsequence(FlagTokens(form, table), TokensOf(table))
  {
    if table != [] {
      FlagTokensInOrder(form, table[1..]);
      var a, b := FlagTokens(form, table), TokensOf(table);
      assert b != [] && b[1..] == TokensOf(table[1..]);
      if Checked(form, table[0].0) {
        assert a[0] == b[0] && a[1..] == FlagTokens(form, table[1..]);
      } else {
        assert a == FlagTokens(form, table[1..]);
      }
    }
  }

  /** The flag part depends on nothing but the checkboxes of the table. */
  lemma {:induction false} FlagTokensAgree(f1: Form, f2: Form, table: seq<(FlagBox, string)>)
    requires forall j :: 0 <= j < |table| ==> Checked(f1, table[j].0) == Checked(f2, table[j].0)
    ensures FlagTokens(f1, table) == FlagTokens(f2, table)
  {
    if table != [] {
      assert Checked(f1, table[0].0) == Checked(f2, table[0].0);
      FlagTokensAgree(f1, f2, table[1..]);
    }
  }

  /** Inserting into the tail of a sequence is inserting into the whole,
      further along by the length of the head. */
  lemma InsertBehindHead<T>(head: seq<T>, x: seq<T>, q: nat, t: T)
    requires q <= |x|
    ensures head + (x[..q] + [t] + x[q..]) == (head + x)[..|head| + q] + [t] + (head + x)[|head| + q..]
  {
    assert (head + x)[..|head| + q] == head + x[..q];
    assert (head + x)[|head| + q..] == x[q..];
  }

  /** Two forms that differ only in the box of row `k`: checked in `on`,
      clear in `off`. */
  predicate DifferOnlyAt(on: Form, off: Form, table: seq<(FlagBox, string)>, k: nat)
    requires k < |table|
  {
    Checked(on, table[k].0) && !Checked(off, table[k].0) &&
    forall j :: 0 <= j < |table| && j != k ==> Checked(on, table[j].0) == Checked(off, table[j].0)
  }

  /** The flag part of `on` is that of `off` with row `k`'s flag inserted
      after the flags of the checked rows before it. */
  predicate Inserts(on: Form, off: Form, table: seq<(FlagBox, string)>, k: nat)
    requires k < |table|
  {
    var x := FlagTokens(off, table);
    var p := CountChecked(off, table[..k]);
    p <= |x| && FlagTokens(on, table) == x[..p] + [table[k].1] + x[p..]
  }

  lemma DifferOnlyAtTail(on: Form, off: Form, table: seq<(FlagBox, string)>, k: nat)
    requires 0 < k < |table| && DifferOnlyAt(on, off, table, k)
    ensures DifferOnlyAt(on, off, table[1..], k - 1)
    ensures Checked(on, table[0].0) == Checked(off, table[0].0)
  {
    var rest := table[1..];
    assert rest[k - 1] == table[k];
    forall j | 0 <= j < |rest| && j != k - 1 ensures Checked(on, rest[j].0) == Checked(off, rest[j].0) {
      assert rest[j] == table[j + 1];
    }
  }

  /** Setting one box inserts exactly that row's flag into the flag part,
      after the flags of the checked rows before it; everything else
      stays as it was. */
  lemma {:induction false} FlagTokensToggle(on: Form, off: Form, table: seq<(FlagBox, string)>, k: nat)
    requires k < |table| && DifferOnlyAt(on, off, table, k)
    ensures Inserts(on, off, table, k)
  {
    var rest := table[1..];
    if k == 0 {
      forall j | 0 <= j < |rest| ensures Checked(on, rest[j].0) == Checked(off, rest[j].0) {
        assert rest[j] == table[j + 1];
      }
      FlagTokensAgree(on, off, rest);
      FlagTokensToggleFirst(on, off, table);
    } else {
      DifferOnlyAtTail(on, off, table, k);
      FlagTokensToggle(on, off, rest, k - 1);
      assert rest[k - 1] == table[k];
      FlagTokensToggleStep(on, off, table, k);
    }
  }

  /** The base case of FlagTokensToggle: the toggled row comes first. */
  lemma FlagTokensToggleFirst(on: Form, off: Form, table: seq<(FlagBox, string)>)
    requires table != [] && Checked(on, table[0].0) && !Checked(off, table[0].0)
    requires FlagTokens(on, table[1..]) == FlagTokens(off, table[1..])
    ensures Inserts(on, off, table, 0)
  {
    assert FlagTokens(on, table) == [table[0].1] + FlagTokens(on, table[1..]);
    assert FlagTokens(off, table) == FlagTokens(off, table[1..]);
    assert table[..0] == [];
    InsertAtFront(FlagTokens(off, table), table[0].1);
  }

  /** Inserting at position 0 is prepending. */
  lemma InsertAtFront(x: seq<string>, f: string)
    ensures x[..0] + [f] + x[0..] == [f] + x
  {
  }

  /** The inductive step of FlagTokensToggle: a row in front of the toggled
      one contributes the same to both sides. */
  lemma FlagTokensToggleStep(on: Form, off: Form, table: seq<(FlagBox, string)>, k: nat)
    requires 0 < k < |table| && Checked(on, table[0].0) == Checked(off, table[0].0)
    requires table[1..][k - 1] == table[k]
    requires Inserts(on, off, table[1..], k - 1)
    ensures Inserts(on, off, table, k)
  {
    var rest := table[1..];
    var part := FlagPart(off, table[0]);
    assert FlagPart(on, table[0]) == part;
    var x := FlagTokens(off, rest);
    var q := CountChecked(off, rest[..k - 1]);
    assert CountChecked(off, table[..k]) == |part| + q by {
      assert table[..k][1..] == rest[..k - 1];
    }
    assert FlagTokens(on, table) == part + FlagTokens(on, rest);
    assert FlagTokens(off, table) == part + x;
    InsertBehindHead(part, x, q, table[k].1);
  }

  // ---------------------------------------------------------------------
  // The value part, over any table

  lemma EvensOddsOfPair<T>(a: T, b: T, s: seq<T>)
    ensures Evens([a, b] + s) == [a] + Evens(s)
    ensures Odds([a, b] + s) == [b] + Odds(s)
  {
    assert ([a, b] + s)[2..] == s;
  }

  /** Unfolding the value part by one row, position by position. */
  lemma ValueTokensStep(form: Form, table: seq<(ValueBox, string)>)
    requires table != []
    ensures var tail := ValueTokens(form, table[1..]);
            var text := Strip(Entry(form, table[0].0));
            if text != "" then
              Evens(ValueTokens(form, table)) == [table[0].1] + Evens(tail) &&
              Odds(ValueTokens(form, table)) == [text] + Odds(tail) &&
              |ValueTokens(form, table)| == 2 + |tail|
            else
              ValueTokens(form, table) == tail
  {
    var tail := ValueTokens(form, table[1..]);
    var text := Strip(Entry(form, table[0].0));
    if text != "" {
      assert ValueTokens(form, table) == [table[0].1, text] + tail;
      EvensOddsOfPair(table[0].1, text, tail);
    }
  }

  /** The value part is a run of pairs: as many as there are filled inputs. */
  lemma {:induction false} ValueTokensLength(form: Form, table: seq<(ValueBox, string)>)
    ensures |ValueTokens(form, table)| == 2 * CountFilled(form, table)
    ensures |Evens(ValueTokens(form, table))| == CountFilled(form, table)
    ensures |Odds(ValueTokens(form, table))| == CountFilled(form, table)
  {
    if table != [] {
      ValueTokensLength(form, table[1..]);
      ValueTokensStep(form, table);
    }
  }

  /** A token no row of the table carries is never in a flag position. */
  lemma {:induction false} ValueFlagsOnlyFromTable(form: Form, table: seq<(ValueBox, string)>, x: string)
    requires forall j :: 0 <= j < |table| ==> table[j].1 != x
    ensures x !in Evens(ValueTokens(form, table))
  {
    if table != [] {
      ValueFlagsOnlyFromTable(form, table[1..], x);
      ValueTokensStep(form, table);
    }
  }

  /** With distinct tokens, row `k`'s flag stands in a flag position once
      if its trimmed text is non-empty and not at all otherwise. */
  lemma {:induction false} ValueFlagCount(form: Form, table: seq<(ValueBox, string)>, k: nat)
    requires DistinctTokens(table) && k < |table|
    ensures multiset(Evens(ValueTokens(form, table)))[table[k].1]
         == if Strip(Entry(form, table[k].0)) != "" then 1 else 0
  {
    var rest := table[1..];
    var x := table[k].1;
    DistinctTail(table);
    if k == 0 {
      HeadTokenNotInTail(table);
      ValueFlagsOnlyFromTable(form, rest, x);
    } else {
      ValueFlagCount(form, rest, k - 1);
      assert rest[k - 1] == table[k];
      assert table[0].1 != x;
    }
    ValueFlagsCountStep(form, table, x);
  }

  /** Counting a flag in the flag positions of the value part row by row. */
  lemma ValueFlagsCountStep(form: Form, table: seq<(ValueBox, string)>, x: string)
    requires table != []
    ensures multiset(Evens(ValueTokens(form, table)))[x]
         == (if Strip(Entry(form, table[0].0)) != "" && table[0].1 == x then 1 else 0)
          + multiset(Evens(ValueTokens(form, table[1..])))[x]
  {
    ValueTokensStep(form, table);
    CountInConcat([table[0].1], Evens(ValueTokens(form, table[1..])), x);
  }

  /** The flags in flag positions keep the table's order. */
  lemma {:induction false} ValueFlagsInOrder(form: Form, table: seq<(ValueBox, string)>)
    ensures IsSubsequence(Evens(ValueTokens(form, table)), TokensOf(table))
  {
    if table != [] {
      ValueFlagsInOrder(form, table[1..]);
      ValueTokensStep(form, table);
      var a, b := Evens(ValueTokens(form, table)), TokensOf(table);
      assert b != [] && b[1..] == TokensOf(table[1..]);
      if Strip(Entry(form, table[0].0)) != "" {
        assert a[0] == b[0] && a[1..] == Evens(ValueTokens(form, table[1..]));
      }
    }
  }

  /** Every flag in a flag position is followed by the trimmed text of its
      own input. */
  lemma {:induction false} ValueTokensPaired(form: Form, table: seq<(ValueBox, string)>)
    requires DistinctTokens(table)
    ensures var seg := ValueTokens(form, table);
      forall i, k :: 0 <= i < |Odds(seg)| && i < |Evens(seg)| && 0 <= k < |table| && Evens(seg)[i] == table[k].1
        ==> Odds(seg)[i] == Strip(Entry(form, table[k].0))
  {
    if table != [] {
      var rest := table[1..];
      DistinctTail(table);
      ValueTokensPaired(form, rest);
      HeadTokenNotInTail(table);
      ValueFlagsOnlyFromTable(form, rest, table[0].1);
      var tail := ValueTokens(form, rest);
      var seg := ValueTokens(form, table);
      var filled := Strip(Entry(form, table[0].0)) != "";
      ValueTokensStep(form, table);
      forall i, k | 0 <= i < |Odds(seg)| && i < |Evens(seg)| && 0 <= k < |table| && Evens(seg)[i] == table[k].1
        ensures Odds(seg)[i] == Strip(Entry(form, table[k].0))
      {
        if filled && i == 0 {
          assert k == 0;
        } else {
          var i' := if filled then i - 1 else i;
          assert Evens(seg)[i] == Evens(tail)[i'] && Odds(seg)[i] == Odds(tail)[i'];
          assert Evens(tail)[i'] in Evens(tail);
          assert k != 0;
          assert rest[k - 1] == table[k];
        }
      }
    }
  }

  /** A property every flag of the table has holds of every token of the
      flag part. */
  lemma {:induction false} FlagTokensAll(form: Form, table: seq<(FlagBox, string)>, P: string -> bool)
    requires forall j :: 0 <= j < |table| ==> P(table[j].1)
    ensures forall t :: t in FlagTokens(form, table) ==> P(t)
  {
    if table != [] {
      var rest := table[1..];
      forall j | 0 <= j < |rest| ensures P(rest[j].1) {
        assert rest[j] == table[j + 1];
      }
      FlagTokensAll(form, rest, P);
      assert FlagTokens(form, table) == FlagPart(form, table[0]) + FlagTokens(form, rest);
    }
  }

  /** A property every flag of the table and every non-empty trimmed text of
      its inputs has holds of every token of the value part. */
  lemma {:induction false} ValueTokensAll(form: Form, table: seq<(ValueBox, string)>, P: string -> bool)
    requires forall j :: 0 <= j < |table| ==> P(table[j].1)
    requires forall j :: 0 <= j < |table| && Strip(Entry(form, table[j].0)) != "" ==> P(Strip(Entry(form, table[j].0)))
    ensures forall t :: t in ValueTokens(form, table) ==> P(t)
  {
    if table != [] {
      var rest := table[1..];
      forall j | 0 <= j < |rest| ensures P(rest[j].1) && (Strip(Entry(form, rest[j].0)) != "" ==> P(Strip(Entry(form, rest[j].0)))) {
        assert rest[j] == table[j + 1];
      }
      ValueTokensAll(form, rest, P);
      assert ValueTokens(form, table) == ValuePart(form, table[0]) + ValueTokens(form, rest);
    }
  }

  /** The value part depends on nothing but the trimmed texts of the table's
      inputs. */
  lemma {:induction false} ValueTokensAgree(f1: Form, f2: Form, table: seq<(ValueBox, string)>)
    requires forall j :: 0 <= j < |table| ==> Strip(Entry(f1, table[j].0)) == Strip(Entry(f2, table[j].0))
    ensures ValueTokens(f1, table) == ValueTokens(f2, table)
  {
    if table != [] {
      assert Strip(Entry(f1, table[0].0)) == Strip(Entry(f2, table[0].0));
      ValueTokensAgree(f1, f2, table[1..]);
    }
  }

  // ---------------------------------------------------------------------
  // The argument vector

  /** The argument vector holds the program token, one token per checked
      box, two per input that is non-empty once trimmed, and the target
      token, which is the trimmed target or the placeholder when the target
      is empty or only whitespace. */
  lemma ArgvShape(form: Form)
    ensures |Argv(form)| == 2 + NumChecked(form) + 2 * NumFilled(form)
    ensures Argv(form)[0] == Program
    ensures Argv(form)[|Argv(form)| - 1] == if AllSpace(form.target) then Placeholder else Strip(form.target)
  {
    FlagTokensLength(form, FlagTable);
    NumCheckedCounts(form);
    ValueTokensLength(form, ValueTable);
    NumFilledCounts(form);
    StripEmpty(form.target);
  }

  /** The slices of `[a] + x + y + [b]` that hold `x` and `y`. */
  lemma Framed<T>(a: T, x: seq<T>, y: seq<T>, b: T)
    ensures var s := [a] + x + y + [b];
      |s| == 2 + |x| + |y| && s[1..1 + |x|] == x && s[1 + |x|..|s| - 1] == y
  {
    var s := [a] + x + y + [b];
    assert s[1..1 + |x|] == x;
    assert s[1 + |x|..|s| - 1] == y;
  }

  /** The two parts of the argument vector between the program token and
      the target, located by the counts. */
  lemma ArgvParts(form: Form)
    ensures 1 + NumChecked(form) + 2 * NumFilled(form) == |Argv(form)| - 1
    ensures Argv(form)[1..1 + NumChecked(form)] == FlagTokens(form, FlagTable)
    ensures Argv(form)[1 + NumChecked(form)..|Argv(form)| - 1] == ValueTokens(form, ValueTable)
  {
    var f, v := FlagTokens(form, FlagTable), ValueTokens(form, ValueTable);
    FlagTokensLength(form, FlagTable);
    NumCheckedCounts(form);
    ValueTokensLength(form, ValueTable);
    NumFilledCounts(form);
    Framed(Program, f, v, TargetToken(form.target));
  }

  /** Right after the program token come the boolean flags: the flag of a
      checked box exactly once, the flag of an unchecked box not at all, in
      declaration order. */
  lemma FlagsInArgv(form: Form)
    ensures 1 + NumChecked(form) <= |Argv(form)|
    ensures var flags := Argv(form)[1..1 + NumChecked(form)];
      (forall k :: 0 <= k < |FlagTable| ==>
         multiset(flags)[FlagTable[k].1] == if Checked(form, FlagTable[k].0) then 1 else 0) &&
      IsSubsequence(flags, FlagOrder)
  {
    ArgvParts(form);
    FlagTableOrder();
    FlagTableRows();
    forall k | 0 <= k < |FlagTable| {
      FlagTokenCount(form, FlagTable, k);
    }
    FlagTokensInOrder(form, FlagTable);
  }

  /** Between the flags and the target come the value options as a run of
      pairs: the flag of an input appears, once, exactly when the input is
      not empty or whitespace; flags keep declaration order; and each flag
      is followed by its own input's trimmed text. */
  lemma ValuesInArgv(form: Form)
    ensures 1 + NumChecked(form) + 2 * NumFilled(form) == |Argv(form)| - 1
    ensures var values := Argv(form)[1 + NumChecked(form)..|Argv(form)| - 1];
      |Evens(values)| == NumFilled(form) && |Odds(values)| == NumFilled(form) &&
      (forall k :: 0 <= k < |ValueTable| ==>
         multiset(Evens(values))[ValueTable[k].1] == if AllSpace(Entry(form, ValueTable[k].0)) then 0 else 1) &&
      IsSubsequence(Evens(values), ValueOrder) &&
      (forall i, k :: 0 <= i < NumFilled(form) && 0 <= k < |ValueTable| && Evens(values)[i] == ValueTable[k].1
         ==> Odds(values)[i] == Strip(Entry(form, ValueTable[k].0)))
  {
    ArgvParts(form);
    ValueTokensLength(form, ValueTable);
    NumFilledCounts(form);
    ValueTableOrder();
    ValueTableRows();
    ValueFlagsCounted(form);
    ValueFlagsInOrder(form, ValueTable);
    ValueTokensPaired(form, ValueTable);
  }

  /** The flag of an input appears once among the value flags when the
      input holds more than whitespace, and not at all otherwise. */
  lemma ValueFlagsCounted(form: Form)
    ensures forall k :: 0 <= k < |ValueTable| ==>
      multiset(Evens(ValueTokens(form, ValueTable)))[ValueTable[k].1]
        == if AllSpace(Entry(form, ValueTable[k].0)) then 0 else 1
  {
    ValueTableRows();
    forall k | 0 <= k < |ValueTable|
      ensures multiset(Evens(ValueTokens(form, ValueTable)))[ValueTable[k].1]
        == if AllSpace(Entry(form, ValueTable[k].0)) then 0 else 1
    {
      ValueFlagCount(form, ValueTable, k);
      StripEmpty(Entry(form, ValueTable[k].0));
    }
  }

  /** A property of the program token, of every table flag, of every
      non-empty trimmed input and of the target token holds of every token
      of the argument vector. */
  lemma ArgvAll(form: Form, P: string -> bool)
    requires P(Program) && P(TargetToken(form.target))
    requires forall j :: 0 <= j < |FlagTable| ==> P(FlagTable[j].1)
    requires forall j :: 0 <= j < |ValueTable| ==> P(ValueTable[j].1)
    requires forall v :: Strip(Entry(form, v)) != "" ==> P(Strip(Entry(form, v)))
    ensures forall t :: t in Argv(form) ==> P(t)
  {
    FlagTokensAll(form, FlagTable, P);
    ValueTokensAll(form, ValueTable, P);
  }

  /** Every token is non-empty and has no whitespace at either end: values
      and the target are emitted trimmed. */
  lemma ArgvTokensTrimmed(form: Form)
    ensures forall t :: t in Argv(form) ==> Tidy(t)
  {
    FlagTableRows();
    ValueTableRows();
    StripHasNoOuterSpace(form.target);
    forall v: ValueBox {
      StripHasNoOuterSpace(Entry(form, v));
    }
    PrintableNotSpace();
    ArgvAll(form, Tidy);
  }

  /** Only the checkboxes and the trimmed texts matter: forms that agree on
      those give the same argument vector, whatever edits led to them. */
  lemma ArgvDependsOnTrimmedForm(f1: Form, f2: Form)
    requires forall b :: Checked(f1, b) == Checked(f2, b)
    requires forall v :: Strip(Entry(f1, v)) == Strip(Entry(f2, v))
    requires Strip(f1.target) == Strip(f2.target)
    ensures Argv(f1) == Argv(f2)
  {
    FlagTokensAgree(f1, f2, FlagTable);
    ValueTokensAgree(f1, f2, ValueTable);
  }

  /** An input holding only whitespace yields the same argument vector as
      the empty input. */
  lemma WhitespaceEntryIsEmpty(form: Form, box: ValueBox, text: string)
    requires AllSpace(text)
    ensures Argv(WithEntry(form, box, text)) == Argv(WithEntry(form, box, ""))
  {
    var f1, f2 := WithEntry(form, box, text), WithEntry(form, box, "");
    forall v ensures Strip(Entry(f1, v)) == Strip(Entry(f2, v)) {
      if v == box {
        StripEmpty(text);
        StripEmpty("");
      }
    }
    ArgvDependsOnTrimmedForm(f1, f2);
  }

  /** Inserting into the middle of a sequence, seen from around it. */
  lemma InsertBetween<T>(head: seq<T>, x: seq<T>, tail: seq<T>, q: nat, t: T)
    requires q <= |x|
    ensures var whole := head + x + tail;
      head + (x[..q] + [t] + x[q..]) + tail == whole[..|head| + q] + [t] + whole[|head| + q..]
  {
    var whole := head + x + tail;
    assert whole[..|head| + q] == head + x[..q];
    assert whole[|head| + q..] == x[q..] + tail;
  }

  /** Checking box `k` inserts exactly its flag into the argument vector,
      right after the program token and the flags of the checked boxes
      declared before it; unchecking it removes that token and no other. */
  lemma ToggleFlag(form: Form, k: nat)
    requires k < |FlagTable|
    ensures var on := Argv(WithChecked(form, FlagTable[k].0, true));
            var off := Argv(WithChecked(form, FlagTable[k].0, false));
            var p := 1 + CountChecked(form, FlagTable[..k]);
            p <= |off| && on == off[..p] + [FlagTable[k].1] + off[p..]
  {
    var b := FlagTable[k].0;
    var on, off := WithChecked(form, b, true), WithChecked(form, b, false);
    FlagTableRows();
    WithCheckedDiffers(form, FlagTable, k);
    FlagTokensToggle(on, off, FlagTable, k);
    ToggleFlagAround(form, k);
  }

  /** The same number of checked rows in two forms that agree on them. */
  lemma {:induction false} CountCheckedAgree(f1: Form, f2: Form, table: seq<(FlagBox, string)>)
    requires forall j :: 0 <= j < |table| ==> Checked(f1, table[j].0) == Checked(f2, table[j].0)
    ensures CountChecked(f1, table) == CountChecked(f2, table)
  {
    if table != [] {
      assert Checked(f1, table[0].0) == Checked(f2, table[0].0);
      CountCheckedAgree(f1, f2, table[1..]);
    }
  }

  /** With distinct boxes, setting row `k`'s box on and off gives two forms
      that differ only there, and that agree with the original on the rows
      before it. */
  lemma WithCheckedDiffers(form: Form, table: seq<(FlagBox, string)>, k: nat)
    requires k < |table|
    requires forall i, j :: 0 <= i < j < |table| ==> table[i].0 != table[j].0
    ensures DifferOnlyAt(WithChecked(form, table[k].0, true), WithChecked(form, table[k].0, false), table, k)
    ensures CountChecked(WithChecked(form, table[k].0, false), table[..k]) == CountChecked(form, table[..k])
  {
    var b := table[k].0;
    var on, off := WithChecked(form, b, true), WithChecked(form, b, false);
    forall j | 0 <= j < |table| && j != k ensures Checked(on, table[j].0) == Checked(off, table[j].0) {
      assert table[j].0 != b;
    }
    var before := table[..k];
    forall j | 0 <= j < |before| ensures Checked(off, before[j].0) == Checked(form, before[j].0) {
      assert before[j] == table[j] && table[j].0 != b;
    }
    CountCheckedAgree(off, form, before);
  }

  /** A checkbox changes only the flag part of the argument vector. */
  lemma ArgvWithChecked(form: Form, b: FlagBox, on: bool)
    ensures var f := WithChecked(form, b, on);
      Argv(f) == [Program] + FlagTokens(f, FlagTable) + (ValueTokens(form, ValueTable) + [TargetToken(form.target)])
  {
    var f := WithChecked(form, b, on);
    ValueTokensAgree(f, form, ValueTable);
  }

  /** ToggleFlag once the flag part is known to take the inserted token. */
  lemma ToggleFlagAround(form: Form, k: nat)
    requires k < |FlagTable|
    requires var off := WithChecked(form, FlagTable[k].0, false);
      CountChecked(off, FlagTable[..k]) == CountChecked(form, FlagTable[..k]) &&
      Inserts(WithChecked(form, FlagTable[k].0, true), off, FlagTable, k)
    ensures var on := Argv(WithChecked(form, FlagTable[k].0, true));
            var off := Argv(WithChecked(form, FlagTable[k].0, false));
            var p := 1 + CountChecked(form, FlagTable[..k]);
            p <= |off| && on == off[..p] + [FlagTable[k].1] + off[p..]
  {
    var b := FlagTable[k].0;
    ArgvWithChecked(form, b, true);
    ArgvWithChecked(form, b, false);
    var f := FlagTokens(WithChecked(form, b, false), FlagTable);
    var tail := ValueTokens(form, ValueTable) + [TargetToken(form.target)];
    InsertBetween([Program], f, tail, CountChecked(form, FlagTable[..k]), FlagTable[k].1);
  }
}
