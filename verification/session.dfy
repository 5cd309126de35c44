/**
 * The editor's session: the document text, the path it is saved under and
 * the "unsaved changes" mark, with the file-menu transitions on them.
 * Every dialog answer and every outcome of the file system is a parameter.
 */
module Session {
  import opened Wrappers
  import opened Text
  import opened FileLoad
  import Search

  /**
   * `filePath` is None until the document is opened from or saved to a
   * path; `unsaved` is the editor's own mark, distinct from the text
   * widget's modified flag.
   */
  datatype Session = Session(text: string, filePath: Option<string>, unsaved: bool)

  /** The state of a fresh editor, and of the document after "New". */
  const Empty: Session := Session("", None, false)

  /** The path test the save command makes: a path is present and non-empty. */
  predicate HasPath(s: Session)
  {
    s.filePath.Some? && s.filePath.value != ""
  }

  /** A stored path is never the empty string (the dialogs report a cancel as ""). */
  predicate Valid(s: Session)
  {
    s.filePath.Some? ==> s.filePath.value != ""
  }

  /** What a save consumes from outside: the path the save dialog returns ("" on cancel) and whether writing succeeds. */
  datatype SaveInputs = SaveInputs(chosen: string, writeOk: bool)

  /** The three answers of the "save changes?" question. */
  datatype Answer = Yes | No | Cancel

  /** The outcome of a confirmation: whether the caller goes on, and the session after it. */
  datatype Decision = Decision(proceed: bool, session: Session)

  /**
   * "Save as": a chosen path and a successful write make the document
   * clean and saved under that path; a cancelled dialog or a failed write
   * changes nothing.
   */
  function SaveFileAs(s: Session, io: SaveInputs): (r: Session)
    ensures r.text == s.text
    ensures io.chosen == "" || !io.writeOk ==> r == s
    ensures io.chosen != "" && io.writeOk ==> r.filePath == Some(io.chosen) && !r.unsaved
    ensures Valid(s) ==> Valid(r)
  {
    if io.chosen != "" && io.writeOk then Session(s.text, Some(io.chosen), false) else s
  }

  /**
   * "Save": with a path, write to it (the chosen path of `io` is not
   * consulted) and on success clear the mark; without one, behave as
   * "save as".
   */
  function SaveFile(s: Session, io: SaveInputs): (r: Session)
    ensures r.text == s.text
    ensures HasPath(s) ==> r.filePath == s.filePath
    ensures HasPath(s) && io.writeOk ==> !r.unsaved
    ensures HasPath(s) && !io.writeOk ==> r == s
    ensures !HasPath(s) ==> r == SaveFileAs(s, io)
    ensures Valid(s) ==> Valid(r)
  {
    if HasPath(s) then
      if io.writeOk then Session(s.text, s.filePath, false) else s
    else SaveFileAs(s, io)
  }

  /** Saving twice with the same outcomes leaves the session as saving once did. */
  lemma SaveIsIdempotent(s: Session, io: SaveInputs)
    ensures SaveFile(SaveFile(s, io), io) == SaveFile(s, io)
  {
  }

  /** A successful save, of either kind, leaves a clean document that has a path. */
  lemma SuccessfulSaveIsClean(s: Session, io: SaveInputs)
    requires io.writeOk && (HasPath(s) || io.chosen != "")
    ensures !SaveFile(s, io).unsaved && HasPath(SaveFile(s, io))
  {
  }

  /**
   * The "save changes?" question: Cancel stops the caller; No goes on
   * without saving; Yes saves and goes on, whether or not the save
   * succeeded.
   */
  function ConfirmDiscard(s: Session, answer: Answer, io: SaveInputs): (r: Decision)
    ensures r.proceed <==> answer != Cancel
    ensures answer == Yes ==> r.session == SaveFile(s, io)
    ensures answer != Yes ==> r.session == s
  {
    match answer
    case Cancel => Decision(false, s)
    case Yes => Decision(true, SaveFile(s, io))
    case No => Decision(true, s)
  }

  /** The guard that opens "new", "open" and "exit": ask only when there are unsaved changes. */
  function Guard(s: Session, answer: Answer, io: SaveInputs): (r: Decision)
    ensures !s.unsaved ==> r == Decision(true, s)
    ensures s.unsaved ==> r == ConfirmDiscard(s, answer, io)
    ensures r.session.text == s.text
    ensures !r.proceed ==> r.session == s
    ensures Valid(s) ==> Valid(r.session)
  {
    if s.unsaved then ConfirmDiscard(s, answer, io) else Decision(true, s)
  }

  /** "Yes" proceeds even when the save it asked for did not happen. */
  lemma YesProceedsDespiteFailedSave(s: Session, io: SaveInputs)
    requires s.unsaved && !io.writeOk
    ensures Guard(s, Yes, io).proceed && Guard(s, Yes, io).session == s
  {
  }

  /**
   * "New": unless the user cancels the question, the result is the empty,
   * pathless, clean document; a cancel changes nothing.
   */
  function NewFile(s: Session, answer: Answer, io: SaveInputs): (r: Session)
    ensures !s.unsaved || answer != Cancel ==> r == Empty
    ensures s.unsaved && answer == Cancel ==> r == s
  {
    var d := Guard(s, answer, io);
    if d.proceed then Empty else s
  }

  /**
   * "Open" once the file has been read: after the guard, a loaded text
   * replaces the document under the chosen path and clears the mark; a
   * load error leaves the session as the guard left it.
   */
  function OpenWith(s: Session, answer: Answer, io: SaveInputs,
                    chosen: string, loaded: Result<string, LoadError>): (r: Session)
    ensures s.unsaved && answer == Cancel ==> r == s
    ensures Guard(s, answer, io).proceed && loaded.Failure? ==> r == Guard(s, answer, io).session
    ensures Guard(s, answer, io).proceed && loaded.Success? ==> r == Session(loaded.value, Some(chosen), false)
    ensures Valid(s) && (loaded.Success? ==> chosen != "") ==> Valid(r)
  {
    var d := Guard(s, answer, io);
    if !d.proceed then s
    else match loaded
      case Failure(_) => d.session
      case Success(content) => Session(content, Some(chosen), false)
  }

  /**
   * "Open" as the editor is written. A cancelled question, a cancelled
   * dialog, a file over the ceiling or one that cannot be opened or
   * mapped leaves the session as the guard left it. A UTF-8 file replaces
   * the text. Any other accepted file loads as the windows-1251 decoding
   * of no bytes at all, which is the empty text, under the chosen path.
   */
  function OpenFile(s: Session, answer: Answer, io: SaveInputs,
                    chosen: string, file: DiskFile, codecs: Codecs): (r: Session)
    ensures s.unsaved && answer == Cancel ==> r == s
    ensures Guard(s, answer, io).proceed && LoadAsWritten(chosen, file, codecs).Failure? ==>
              r == Guard(s, answer, io).session
    ensures Guard(s, answer, io).proceed && Accepted(chosen, file) && codecs.utf8(file.bytes).Some? ==>
              r == Session(codecs.utf8(file.bytes).value, Some(chosen), false)
    ensures Guard(s, answer, io).proceed && Accepted(chosen, file) && codecs.utf8(file.bytes).None?
            && codecs.cp1251([]) == Some("") ==>
              r == Session("", Some(chosen), false)
    ensures Valid(s) ==> Valid(r)
  {
    OpenWith(s, answer, io, chosen, LoadAsWritten(chosen, file, codecs))
  }

  /**
   * "Open" as evidently intended: the same steps with the fallback
   * decoding the file's own bytes; a file neither decoder accepts leaves
   * the session as the guard left it.
   */
  function OpenFileIntended(s: Session, answer: Answer, io: SaveInputs,
                            chosen: string, file: DiskFile, codecs: Codecs): (r: Session)
    ensures s.unsaved && answer == Cancel ==> r == s
    ensures Guard(s, answer, io).proceed && Load(chosen, file, codecs).Failure? ==>
              r == Guard(s, answer, io).session
    ensures Guard(s, answer, io).proceed && Accepted(chosen, file) && codecs.utf8(file.bytes).Some? ==>
              r == Session(codecs.utf8(file.bytes).value, Some(chosen), false)
    ensures Guard(s, answer, io).proceed && Accepted(chosen, file) && codecs.utf8(file.bytes).None?
            && codecs.cp1251(file.bytes).Some? ==>
              r == Session(codecs.cp1251(file.bytes).value, Some(chosen), false)
    ensures Valid(s) ==> Valid(r)
  {
    OpenWith(s, answer, io, chosen, Load(chosen, file, codecs))
  }

  /** The two versions of "open" differ only on accepted files that are not UTF-8. */
  lemma OpenVersionsAgreeOnUtf8(s: Session, answer: Answer, io: SaveInputs,
                                chosen: string, file: DiskFile, codecs: Codecs)
    requires !Accepted(chosen, file) || codecs.utf8(file.bytes).Some?
    ensures OpenFile(s, answer, io, chosen, file, codecs) == OpenFileIntended(s, answer, io, chosen, file, codecs)
  {
    assert LoadAsWritten(chosen, file, codecs) == Load(chosen, file, codecs);
  }

  /** Opening a file the user then cancels, or that is too large, leaves a clean session untouched. */
  lemma OpenRefusalKeepsCleanSession(s: Session, answer: Answer, io: SaveInputs,
                                     chosen: string, file: DiskFile, codecs: Codecs)
    requires !s.unsaved
    requires chosen == "" || |file.bytes| > MaxFileSize
    ensures OpenFile(s, answer, io, chosen, file, codecs) == s
  {
  }

  /**
   * A file of exactly the ceiling size that opens and decodes is loaded:
   * the ceiling refuses only files strictly larger than it.
   */
  lemma OpenAcceptsCeilingSize(s: Session, io: SaveInputs, chosen: string, file: DiskFile, codecs: Codecs)
    requires !s.unsaved && chosen != "" && file.openable
    requires |file.bytes| == MaxFileSize && codecs.utf8(file.bytes).Some?
    ensures OpenFile(s, No, io, chosen, file, codecs) ==
              Session(codecs.utf8(file.bytes).value, Some(chosen), false)
  {
  }

  /** "Exit": the decision says whether the editor quits; a cancel keeps it running and unchanged. */
  function ExitEditor(s: Session, answer: Answer, io: SaveInputs): (r: Decision)
    ensures r.proceed <==> !s.unsaved || answer != Cancel
    ensures r.session.text == s.text
    ensures !r.proceed ==> r.session == s
    ensures !s.unsaved ==> r.session == s
    ensures s.unsaved ==> r == ConfirmDiscard(s, answer, io)
    ensures s.unsaved && answer == Yes ==> r.session == SaveFile(s, io)
    ensures Valid(s) ==> Valid(r.session)
  {
    Guard(s, answer, io)
  }

  /**
   * The key-press handler: when the text widget reports a modification the
   * document is marked unsaved. It never clears the mark.
   */
  function SetUnsavedChanges(s: Session, widgetModified: bool): (r: Session)
    ensures r.text == s.text && r.filePath == s.filePath
    ensures s.unsaved ==> r.unsaved
    ensures widgetModified ==> r.unsaved
    ensures r.unsaved ==> s.unsaved || widgetModified
  {
    if widgetModified then s.(unsaved := true) else s
  }

  /**
   * "Replace": ask what to find (None or "" stops), then what to put in its
   * place (None stops; "" deletes), then replace every non-overlapping
   * occurrence left to right. The path and the mark are not touched.
   */
  method ReplaceText(s: Session, findWhat: Option<string>, replaceWith: Option<string>) returns (r: Session)
    ensures r.filePath == s.filePath && r.unsaved == s.unsaved
    ensures findWhat.None? || findWhat.value == "" || replaceWith.None? ==> r == s
    ensures findWhat.Some? && findWhat.value != "" && replaceWith.Some? ==>
              r.text == Search.ReplaceRef(s.text, findWhat.value, replaceWith.value)
    ensures findWhat.Some? && (forall j :: !MatchAt(s.text, findWhat.value, j)) ==> r == s
  {
    r := s;
    if findWhat.Some? && findWhat.value != "" && replaceWith.Some? {
      var t := Search.ReplaceAll(s.text, findWhat.value, replaceWith.value);
      r := s.(text := t);
      if forall j :: !MatchAt(s.text, findWhat.value, j) {
        Search.ReplaceRefNoMatch(s.text, findWhat.value, replaceWith.value);
      }
    }
  }
}
