/** The app's reaction to events: every edit of the form rebuilds the
    command and its preview; the run button switches to the log view and
    launches the command unless the target input is empty; the escape key
    goes back from the log view and quits from the form. */
module App {
  import opened Text
  import opened Command
  import opened ArgvProperties
  import opened PreviewLine

  /** The two panes of the content switcher. */
  datatype View = ConfigView | LogView

  datatype Option<T> = None | Some(value: T)

  /** Which text input an edit went to. */
  datatype Field = TargetField | ValueField(box: ValueBox)

  /** The id of the button that runs the command. */
  const RunButton := "btn-run"

  /** The form before any event: nothing checked and nothing typed. */
  predicate Untouched(form: Form) {
    (forall b :: !Checked(form, b)) && (forall v :: Entry(form, v) == "") && form.target == ""
  }

  /** The widgets as composed hold an untouched form. */
  lemma EmptyFormUntouched()
    ensures Untouched(EmptyForm)
  {
    forall v ensures Entry(EmptyForm, v) == "" {
      match v
      case _ => {}
    }
    forall b ensures !Checked(EmptyForm, b) {
      match b
      case _ => {}
    }
  }

  /** The markup line the log is cleared to before a run. */
  function RunningLine(preview: string): string {
    "[bold green]Running: " + preview + "[/]"
  }

  class PingApp {
    /** What the checkboxes and inputs hold. */
    var form: Form
    /** `current_command`: unset until the preview is first rebuilt. */
    var currentCommand: Option<seq<string>>
    /** The text of the preview widget. */
    var preview: string
    var view: View
    var exited: bool
    /** The lines the log widget holds. */
    var log: seq<string>
    /** Every argument vector handed to the background runner, in order. */
    var launched: seq<seq<string>>

    /** Before the command is first stored no event has touched the form
        and the preview holds its initial text; once stored, the command is
        the current form's argument vector and the preview shows it. */
    ghost predicate Valid()
      reads this
    {
      match currentCommand
      case None => Untouched(form) && preview == InitialPreview
      case Some(cmd) => cmd == Argv(form) && preview == Join(cmd)
    }

    /** The app as composed: the form blank, the preview widget holding its
        initial text, the form pane shown, nothing run. */
    constructor ()
      ensures Valid()
      ensures form == EmptyForm && currentCommand == None && preview == InitialPreview
      ensures view == ConfigView && !exited && log == [] && launched == []
    {
      form := EmptyForm;
      currentCommand := None;
      preview := InitialPreview;
      view := ConfigView;
      exited := false;
      log := [];
      launched := [];
      EmptyFormUntouched();
    }

    /** `update_preview`: rebuild the command from the form and show it. */
    method UpdatePreview()
      modifies this
      ensures currentCommand == Some(Argv(form)) && preview == Preview(form)
      ensures Valid()
      ensures form == old(form) && view == old(view) && exited == old(exited)
      ensures log == old(log) && launched == old(launched)
    {
      var cmd, line := BuildCommand(form);
      currentCommand := Some(cmd);
      preview := line;
    }

    /** A checkbox is set to `on`; `on_checkbox_changed` rebuilds the
        preview. */
    method CheckboxChanged(box: FlagBox, on: bool)
      requires !exited
      modifies this
      ensures form == WithChecked(old(form), box, on)
      ensures currentCommand == Some(Argv(form)) && preview == Preview(form)
      ensures Valid()
      ensures view == old(view) && exited == old(exited)
      ensures log == old(log) && launched == old(launched)
    {
      form := WithChecked(form, box, on);
      UpdatePreview();
    }

    /** An input's text is replaced; `on_input_changed` rebuilds the
        preview. */
    method InputChanged(field: Field, text: string)
      requires !exited
      modifies this
      ensures form == match field
                      case TargetField => old(form).(target := text)
                      case ValueField(box) => WithEntry(old(form), box, text)
      ensures currentCommand == Some(Argv(form)) && preview == Preview(form)
      ensures Valid()
      ensures view == old(view) && exited == old(exited)
      ensures log == old(log) && launched == old(launched)
    {
      match field {
        case TargetField =>
          form := form.(target := text);
        case ValueField(box) =>
          form := WithEntry(form, box, text);
      }
      UpdatePreview();
    }

    /** `on_button_pressed`: any button but the run button is ignored; with
        the raw target input empty nothing happens; otherwise the log view
        is shown, the log is cleared to the running line, and the stored
        command is launched. A target of only whitespace passes the check
        and runs with the placeholder as its last argument. */
    method ButtonPressed(buttonId: string)
      requires Valid() && !exited
      modifies this
      ensures Valid()
      ensures form == old(form) && currentCommand == old(currentCommand)
      ensures preview == old(preview) && exited == old(exited)
      ensures buttonId != RunButton || form.target == "" ==>
        view == old(view) && log == old(log) && launched == old(launched)
      ensures buttonId == RunButton && form.target != "" ==>
        view == LogView && log == [RunningLine(preview)] &&
        launched == old(launched) + [Argv(form)] && currentCommand == Some(Argv(form))
      ensures buttonId == RunButton && form.target != "" && AllSpace(form.target) ==>
        launched[|launched| - 1][|Argv(form)| - 1] == Placeholder
    {
      if buttonId != RunButton {
        return;
      }
      if form.target == "" {
        return;
      }
      assert currentCommand.Some?;
      var cmd := currentCommand.value;
      view := LogView;
      log := [RunningLine(Join(cmd))];
      launched := launched + [cmd];
      ArgvShape(form);
    }

    /** `action_toggle_view`, bound to escape: from the log view back to
        the form; from the form the app exits. */
    method ToggleView()
      requires !exited
      modifies this
      ensures old(view) == LogView ==> view == ConfigView && !exited
      ensures old(view) == ConfigView ==> view == ConfigView && exited
      ensures form == old(form) && currentCommand == old(currentCommand) && preview == old(preview)
      ensures log == old(log) && launched == old(launched)
    {
      if view == LogView {
        view := ConfigView;
      } else {
        exited := true;
      }
    }
  }

  /** In every valid state the preview shows the form's command, whether
      or not the command has been stored yet. */
  lemma PreviewShowsForm(app: PingApp)
    requires app.Valid()
    ensures app.preview == Preview(app.form)
  {
    if app.currentCommand.None? {
      assert Blank(app.form);
      BlankFormPreview(app.form);
    }
  }

  /** The stored command, when set, splits back out of the preview line as
      long as no input holds a space. */
  lemma StoredCommandMatchesPreview(app: PingApp)
    requires app.Valid() && app.currentCommand.Some?
    requires forall v :: ' ' !in Entry(app.form, v)
    requires ' ' !in app.form.target
    ensures Split(app.preview) == app.currentCommand.value
  {
    PreviewSplitsBack(app.form);
  }
}
