/**
 * The editor as a whole: one handler per user action, dispatched on an
 * event that carries every answer the action will receive from dialogs,
 * the file system and the text widget, and the event loop that runs
 * handlers until the user quits.
 */
module Editor {
  import opened Wrappers
  import opened FileLoad
  import opened Session

  /** One user action together with everything it will learn from outside. */
  datatype Event =
    | NewDoc(answer: Answer, io: SaveInputs)
    | Open(answer: Answer, io: SaveInputs, chosen: string, file: DiskFile, codecs: Codecs)
    | Save(io: SaveInputs)
    | SaveAs(io: SaveInputs)
    | Exit(answer: Answer, io: SaveInputs)
    | KeyPress(widgetModified: bool)       // the key handler, with the widget's modified flag
    | WidgetEdit(text: string)             // an edit the widget performs itself: undo, redo, cut, paste, delete
    | Find(target: Option<string>)
    | Replace(findWhat: Option<string>, replaceWith: Option<string>)
    | CloseWindow                          // the window manager's close button, which no handler intercepts

  /** True for the actions of the file menu, the only ones that can save, load or clear the document. */
  predicate IsFileCommand(e: Event)
  {
    e.NewDoc? || e.Open? || e.Save? || e.SaveAs? || e.Exit?
  }

  /**
   * True when handling `e` in session `s` makes the editor quit: an exit
   * whose question, if asked, is not cancelled, or a close of the window,
   * which destroys it without running any handler.
   */
  predicate Quits(s: Session, e: Event)
  {
    (e.Exit? && (!s.unsaved || e.answer != Cancel)) || e.CloseWindow?
  }

  /**
   * The effect of one event, as a function: the session after it and
   * whether the editor quits. Replace is stated through the reference
   * replacement that the replace loop is proved to compute.
   */
  function Next(s: Session, e: Event): (r: (Session, bool))
    ensures Valid(s) ==> Valid(r.0)
    ensures !s.unsaved && r.0.unsaved ==> e.KeyPress? && e.widgetModified
    ensures s.unsaved && !r.0.unsaved ==> IsFileCommand(e)
    ensures r.0.filePath != s.filePath ==> IsFileCommand(e)
    ensures r.0.text != s.text ==> e.NewDoc? || e.Open? || e.Replace? || e.WidgetEdit?
    ensures e.Find? || e.CloseWindow? ==> r.0 == s
    ensures e.Replace? || e.WidgetEdit? ==> r.0.filePath == s.filePath && r.0.unsaved == s.unsaved
    ensures r.1 <==> Quits(s, e)
  {
    match e
    case NewDoc(answer, io) => (NewFile(s, answer, io), false)
    case Open(answer, io, chosen, file, codecs) => (OpenFile(s, answer, io, chosen, file, codecs), false)
    case Save(io) => (SaveFile(s, io), false)
    case SaveAs(io) => (SaveFileAs(s, io), false)
    case Exit(answer, io) =>
      var d := ExitEditor(s, answer, io);
      (d.session, d.proceed)
    case KeyPress(modified) => (SetUnsavedChanges(s, modified), false)
    case WidgetEdit(t) => (s.(text := t), false)
    case Find(_) => (s, false)
    case CloseWindow => (s, true)
    case Replace(findWhat, replaceWith) =>
      if findWhat.Some? && findWhat.value != "" && replaceWith.Some?
      then (s.(text := Search.ReplaceRef(s.text, findWhat.value, replaceWith.value)), false)
      else (s, false)
  }

  /** Handling one event by running its handler; it has the effect `Next` describes. */
  method Step(s: Session, e: Event) returns (r: Session, quit: bool)
    ensures (r, quit) == Next(s, e)
  {
    quit := false;
    match e
    case NewDoc(answer, io) =>
      r := NewFile(s, answer, io);
    case Open(answer, io, chosen, file, codecs) =>
      r := OpenFile(s, answer, io, chosen, file, codecs);
    case Save(io) =>
      r := SaveFile(s, io);
    case SaveAs(io) =>
      r := SaveFileAs(s, io);
    case Exit(answer, io) =>
      var d := ExitEditor(s, answer, io);
      r, quit := d.session, d.proceed;
    case KeyPress(modified) =>
      r := SetUnsavedChanges(s, modified);
    case WidgetEdit(t) =>
      r := s.(text := t);
    case Find(_) =>
      r := s;
    case CloseWindow =>
      r, quit := s, true;
    case Replace(findWhat, replaceWith) =>
      r := ReplaceText(s, findWhat, replaceWith);
  }

  /**
   * Closing the window ends the editor with unsaved changes still unsaved,
   * while the exit command, in the same session, asks first and a cancel
   * keeps the editor running.
   */
  lemma CloseWindowSkipsQuestion(s: Session, io: SaveInputs)
    requires s.unsaved
    ensures Quits(s, CloseWindow) && Next(s, CloseWindow).0.unsaved
    ensures !Quits(s, Exit(Cancel, io)) && Next(s, Exit(Cancel, io)).0 == s
  {
  }

  /**
   * What the event loop knows after `handled` events: `trace` lists the
   * session before each handled event and after the last, each entry the
   * effect of its event on the one before, and only the last event can
   * have made the editor quit.
   */
  ghost predicate RunState(s: Session, events: seq<Event>, trace: seq<Session>, handled: nat, quit: bool)
  {
    && handled <= |events| && |trace| == handled + 1 && trace[0] == s
    && (forall i :: 0 <= i < handled ==> Next(trace[i], events[i]).0 == trace[i + 1])
    && (quit <==> 0 < handled && Quits(trace[handled - 1], events[handled - 1]))
    && (forall i :: 0 <= i < handled - 1 ==> !Quits(trace[i], events[i]))
    && (Valid(s) ==> Valid(trace[handled]))
    && (!s.unsaved && trace[handled].unsaved ==>
          exists i :: 0 <= i < handled && events[i].KeyPress? && events[i].widgetModified)
  }

  /** Handling one more event, when the editor has not quit, extends what the loop knows. */
  lemma RunStateAdvances(s: Session, events: seq<Event>, trace: seq<Session>, handled: nat,
                         next: Session, quit: bool)
    requires RunState(s, events, trace, handled, false) && handled < |events|
    requires (next, quit) == Next(trace[handled], events[handled])
    ensures RunState(s, events, trace + [next], handled + 1, quit)
  {
    var t := trace + [next];
    assert forall i :: 0 <= i <= handled ==> t[i] == trace[i];
    if !s.unsaved && next.unsaved && trace[handled].unsaved {
      var i :| 0 <= i < handled && events[i].KeyPress? && events[i].widgetModified;
      assert 0 <= i < handled + 1;
    }
  }

  /**
   * The event loop: handle events in order until one makes the editor
   * quit or none are left. `handled` counts the events consumed and the
   * ghost `trace` lists the session before each of them and after the last.
   */
  method Run(s: Session, events: seq<Event>) returns (r: Session, handled: nat, quit: bool, ghost trace: seq<Session>)
    ensures handled <= |events| && |trace| == handled + 1
    ensures trace[0] == s && trace[handled] == r
    ensures forall i :: 0 <= i < handled ==> Next(trace[i], events[i]).0 == trace[i + 1]
    ensures quit <==> 0 < handled && Quits(trace[handled - 1], events[handled - 1])
    ensures forall i :: 0 <= i < handled - 1 ==> !Quits(trace[i], events[i])
    ensures !quit ==> handled == |events|
    ensures Valid(s) ==> Valid(r)
    ensures !s.unsaved && r.unsaved ==>
              exists i :: 0 <= i < handled && events[i].KeyPress? && events[i].widgetModified
  {
    r, handled, quit, trace := s, 0, false, [s];
    while handled < |events| && !quit
      invariant RunState(s, events, trace, handled, quit) && trace[handled] == r
      decreases |events| - handled, !quit
    {
      var next, q := Step(r, events[handled]);
      RunStateAdvances(s, events, trace, handled, next, q);
      r, quit, trace, handled := next, q, trace + [next], handled + 1;
    }
  }
}
