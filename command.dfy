/** The command builder behind the preview line: `update_preview` reads six
    checkboxes, eight text inputs and the target input and assembles the
    argument vector of a Windows `ping` run. */
module Command {
  import opened Text

  /** The checkboxes `#flag_t` .. `#flag_p`. */
  datatype FlagBox = FlagT | FlagA | FlagF | Flag4 | Flag6 | FlagP

  /** The text inputs `#val_n` .. `#val_c`. */
  datatype ValueBox = ValN | ValL | ValW | ValI | ValS | ValV | ValR | ValC

  /** What the widgets hold when the builder reads them: each checkbox's
      state and each input's raw, untrimmed text. */
  datatype Form = Form(
    flagT: bool, flagA: bool, flagF: bool, flag4: bool, flag6: bool, flagP: bool,
    valN: string, valL: string, valW: string, valI: string,
    valS: string, valV: string, valR: string, valC: string,
    target: string)

  /** The widgets as the app starts: nothing checked, every input empty. */
  const EmptyForm := Form(false, false, false, false, false, false,
                          "", "", "", "", "", "", "", "", "")

  const Program := "ping"
  const Placeholder := "[target]"

  /** The boolean options in declaration order, each with its flag token. */
  const FlagTable: seq<(FlagBox, string)> :=
    [(FlagT, "-t"), (FlagA, "-a"), (FlagF, "-f"), (Flag4, "-4"), (Flag6, "-6"), (FlagP, "-p")]

  /** The value options in declaration order, each with its flag token. */
  const ValueTable: seq<(ValueBox, string)> :=
    [(ValN, "-n"), (ValL, "-l"), (ValW, "-w"), (ValI, "-i"),
     (ValS, "-S"), (ValV, "-v"), (ValR, "-r"), (ValC, "-c")]

  /** The state of one checkbox. */
  function Checked(form: Form, box: FlagBox): bool {
    match box
    case FlagT => form.flagT
    case FlagA => form.flagA
    case FlagF => form.flagF
    case Flag4 => form.flag4
    case Flag6 => form.flag6
    case FlagP => form.flagP
  }

  /** The raw text of one value input. */
  function Entry(form: Form, box: ValueBox): string {
    match box
    case ValN => form.valN
    case ValL => form.valL
    case ValW => form.valW
    case ValI => form.valI
    case ValS => form.valS
    case ValV => form.valV
    case ValR => form.valR
    case ValC => form.valC
  }

  /** The form after one checkbox is set to `on`; nothing else changes. */
  function WithChecked(form: Form, box: FlagBox, on: bool): (f: Form)
    ensures Checked(f, box) == on
    ensures forall b :: b != box ==> Checked(f, b) == Checked(form, b)
    ensures forall v :: Entry(f, v) == Entry(form, v)
    ensures f.target == form.target
  {
    match box
    case FlagT => form.(flagT := on)
    case FlagA => form.(flagA := on)
    case FlagF => form.(flagF := on)
    case Flag4 => form.(flag4 := on)
    case Flag6 => form.(flag6 := on)
    case FlagP => form.(flagP := on)
  }

  /** The form after one value input's text is replaced; nothing else changes. */
  function WithEntry(form: Form, box: ValueBox, text: string): (f: Form)
    ensures Entry(f, box) == text
    ensures forall v :: v != box ==> Entry(f, v) == Entry(form, v)
    ensures forall b :: Checked(f, b) == Checked(form, b)
    ensures f.target == form.target
  {
    match box
    case ValN => form.(valN := text)
    case ValL => form.(valL := text)
    case ValW => form.(valW := text)
    case ValI => form.(valI := text)
    case ValS => form.(valS := text)
    case ValV => form.(valV := text)
    case ValR => form.(valR := text)
    case ValC => form.(valC := text)
  }

  // ---------------------------------------------------------------------
  // Specification of the argument vector

  /** What one checkbox row contributes: its flag if checked. */
  function FlagPart(form: Form, row: (FlagBox, string)): seq<string> {
    if Checked(form, row.0) then [row.1] else []
  }

  /** What one input row contributes: its flag and trimmed text, unless
      nothing is left of the text after trimming. */
  function ValuePart(form: Form, row: (ValueBox, string)): seq<string> {
    var text := Strip(Entry(form, row.0));
    if text != "" then [row.1, text] else []
  }

  /** The flag token of every checked box of `table`, in table order. */
  function FlagTokens(form: Form, table: seq<(FlagBox, string)>): seq<string> {
    if table == [] then [] else FlagPart(form, table[0]) + FlagTokens(form, table[1..])
  }

  /** The pair `[flag, trimmed text]` of every input of `table` whose
      trimmed text is not empty, in table order. */
  function ValueTokens(form: Form, table: seq<(ValueBox, string)>): seq<string> {
    if table == [] then [] else ValuePart(form, table[0]) + ValueTokens(form, table[1..])
  }

  /** The trimmed target, or the placeholder when nothing is left of it. */
  function TargetToken(raw: string): string {
    var t := Strip(raw);
    if t != "" then t else Placeholder
  }

  /** The argument vector `update_preview` stores as `current_command`. */
  function Argv(form: Form): seq<string> {
    [Program] + FlagTokens(form, FlagTable) + ValueTokens(form, ValueTable) + [TargetToken(form.target)]
  }

  /** The preview line: the argument vector joined by single spaces. */
  function Preview(form: Form): string {
    Join(Argv(form))
  }

  // ---------------------------------------------------------------------
  // The builder

  /** `update_preview`'s computation: start from the program token, append
      each checked flag, extend by each non-empty trimmed value with its
      flag, append the target; the preview is the space-joined result. */
  method BuildCommand(form: Form) returns (cmd: seq<string>, preview: string)
    ensures cmd == Argv(form)
    ensures preview == Join(cmd)
  {
    cmd := [Program];
    for k := 0 to |FlagTable|
      invariant cmd == [Program] + FlagTokens(form, FlagTable[..k])
    {
      var (box, flag) := FlagTable[k];
      FlagLoopStep(form, k, cmd);
      if Checked(form, box) {
        cmd := cmd + [flag];
      }
    }
    assert FlagTable[..|FlagTable|] == FlagTable;
    for k := 0 to |ValueTable|
      invariant cmd == [Program] + FlagTokens(form, FlagTable) + ValueTokens(form, ValueTable[..k])
    {
      var (box, flag) := ValueTable[k];
      var text := Strip(Entry(form, box));
      ValueLoopStep(form, k, cmd);
      if text != "" {
        cmd := cmd + [flag, text];
      }
    }
    assert ValueTable[..|ValueTable|] == ValueTable;
    var target := Strip(form.target);
    cmd := cmd + [if target != "" then target else Placeholder];
    preview := Join(cmd);
  }

  /** One turn of the builder's first loop extends the command by the
      row's flag part. */
  lemma FlagLoopStep(form: Form, k: nat, cmd: seq<string>)
    requires k < |FlagTable| && cmd == [Program] + FlagTokens(form, FlagTable[..k])
    ensures cmd + FlagPart(form, FlagTable[k]) == [Program] + FlagTokens(form, FlagTable[..k + 1])
  {
    FlagTokensSnoc(form, FlagTable, k);
  }

  /** One turn of the builder's second loop extends the command by the
      row's value part. */
  lemma ValueLoopStep(form: Form, k: nat, cmd: seq<string>)
    requires k < |ValueTable|
    requires cmd == [Program] + FlagTokens(form, FlagTable) + ValueTokens(form, ValueTable[..k])
    ensures cmd + ValuePart(form, ValueTable[k])
         == [Program] + FlagTokens(form, FlagTable) + ValueTokens(form, ValueTable[..k + 1])
  {
    ValueTokensSnoc(form, ValueTable, k);
  }

  /** Scanning one more table row appends that row's flag, if checked. */
  lemma {:induction false} FlagTokensSnoc(form: Form, table: seq<(FlagBox, string)>, k: nat)
    requires k < |table|
    ensures FlagTokens(form, table[..k + 1]) == FlagTokens(form, table[..k]) + FlagPart(form, table[k])
  {
    if k > 0 {
      FlagTokensSnoc(form, table[1..], k - 1);
      assert table[1..][..k] == table[..k + 1][1..];
      assert table[1..][..k - 1] == table[..k][1..];
    }
  }

  /** Scanning one more table row appends that row's pair, if its trimmed
      text is not empty. */
  lemma {:induction false} ValueTokensSnoc(form: Form, table: seq<(ValueBox, string)>, k: nat)
    requires k < |table|
    ensures ValueTokens(form, table[..k + 1]) == ValueTokens(form, table[..k]) + ValuePart(form, table[k])
  {
    if k == 0 {
      assert table[..1] == [table[0]] && table[..1][1..] == [];
    } else {
      ValueTokensSnoc(form, table[1..], k - 1);
      assert table[1..][..k] == table[..k + 1][1..];
      assert table[1..][..k - 1] == table[..k][1..];
      calc {
        ValueTokens(form, table[..k + 1]);
        ValuePart(form, table[0]) + ValueTokens(form, table[1..][..k]);
        ValuePart(form, table[0]) + (ValueTokens(form, table[1..][..k - 1]) + ValuePart(form, table[k]));
        ValueTokens(form, table[..k]) + ValuePart(form, table[k]);
      }
    }
  }
}
