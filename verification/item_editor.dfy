/**
 * The item view controller: displays one keychain item and lets the user
 * reveal, edit, rename or create it.
 *
 * The controller's state is its mode, the view controller's `editing` flag and
 * the key of the item it represents. Each action is a function from that state
 * and the keychain contents to the new state and contents. The text the user
 * has typed into the key field and the value view when tapping Done are
 * parameters. The assertions by which the controller traps on an unexpected
 * state become preconditions.
 */
module ItemEditor {
  import Optional
  import opened Archiving
  import opened Trimming
  import KC = KeyChainStore

  datatype Mode =
    | None    // value concealed
    | View    // value shown read-only
    | Edit    // changing a stored item
    | Create  // adding an item that has no entry yet

  datatype Editor = Editor(mode: Mode, editing: bool, key: string)

  /** The controller is editing exactly in the Edit and Create modes. */
  predicate Invariant(e: Editor) {
    e.editing == (e.mode == Edit || e.mode == Create)
  }

  /**
   * A controller for the item with key `k`, or for a new item when `k` is
   * absent; a new item starts in Create mode, an existing one hidden.
   */
  function Init(k: Optional.Option<string>): (e: Editor)
    ensures Invariant(e)
    ensures e.key == k.GetOr("")
    ensures e.mode == Create <==> k.None?
    ensures e.mode == None || e.mode == Create
  {
    var mode := if k.None? then Create else None;
    Editor(mode, mode == Edit || mode == Create, k.GetOr(""))
  }

  // ---------------------------------------------------------------------
  // Show / hide.

  /** The keychain holds an archived string under `key`, so the value view can display it. */
  predicate ShowsText(kc: KC.KeyChain, db: KC.SecureStore, key: string) {
    KC.Readable(kc, db, key) && KC.Get(kc, db, key).Some? && KC.Get(kc, db, key).value.Text?
  }

  /** The controller after the show button, with the text put into the value view, if any. */
  datatype Shown = Shown(editor: Editor, text: Optional.Option<string>)

  /**
   * The show/hide button: reveals the stored value when hidden, hides it
   * otherwise. The key, the editing flag and the keychain are unchanged.
   */
  function Show(e: Editor, kc: KC.KeyChain, db: KC.SecureStore): (r: Shown)
    requires !e.editing
    requires e.mode == None ==> ShowsText(kc, db, e.key)
    ensures r.editor.key == e.key && !r.editor.editing
    ensures r.editor.mode == View <==> e.mode == None
    ensures r.editor.mode == None || r.editor.mode == View
    ensures Invariant(r.editor)
    ensures r.text.Some? <==> r.editor.mode == View
    ensures r.text.Some? ==> KC.DataForKey(kc, db, e.key) == Optional.Some(Archive(Text(r.text.value)))
  {
    if e.mode == None then
      Shown(Editor(View, e.editing, e.key), Optional.Some(KC.Get(kc, db, e.key).value.s))
    else
      Shown(Editor(None, e.editing, e.key), Optional.None)
  }

  /** Pressing show twice returns the controller to where it was. */
  lemma ShowTwiceRestores(e: Editor, kc: KC.KeyChain, db: KC.SecureStore)
    requires Invariant(e) && !e.editing
    requires ShowsText(kc, db, e.key)
    ensures Show(Show(e, kc, db).editor, kc, db).editor == e
  {
  }

  // ---------------------------------------------------------------------
  // Edit.

  /** The Edit bar button: starts editing the existing item. */
  function BeginEdit(e: Editor): (r: Editor)
    requires !e.editing
    ensures r.mode == Edit && r.editing && r.key == e.key
    ensures Invariant(r)
  {
    Editor(Edit, true, e.key)
  }

  // ---------------------------------------------------------------------
  // Done.

  datatype Alert =
    | KeyRequired  // "KEY REQUIRED": the trimmed key is empty
    | KeyExists    // "KEY EXISTS": the item would be renamed onto another entry

  datatype Outcome = Saved | Rejected(alert: Alert)

  /** The controller and keychain after Done, the notices sent, and whether the entry was saved. */
  datatype Committed = Committed(editor: Editor, db: KC.SecureStore, notices: seq<KC.Notice>, outcome: Outcome)

  /** The existence check Done makes before a rename does not trap. */
  predicate RenameCheckable(e: Editor, kc: KC.KeyChain, db: KC.SecureStore, keyText: string) {
    var newKey := Trim(keyText);
    newKey != "" && newKey != e.key ==> KC.Readable(kc, db, newKey)
  }

  /**
   * The write Done performs once the key is accepted: a renamed item's old
   * entry is removed, then the value text is stored under the new key.
   */
  function Commit(kc: KC.KeyChain, db: KC.SecureStore, oldKey: string, newKey: string, valueText: string): (c: KC.Change)
    requires newKey != ""
    ensures KC.Readable(kc, c.db, newKey) && KC.Get(kc, c.db, newKey) == Optional.Some(Text(valueText))
    ensures oldKey != "" && oldKey != newKey ==> oldKey !in KC.Keys(kc, c.db)
    ensures KC.Namespace(c.db, kc.service) - {newKey, oldKey} == KC.Namespace(db, kc.service) - {newKey, oldKey}
    ensures oldKey == "" || oldKey == newKey ==>
      KC.Namespace(c.db, kc.service) - {newKey} == KC.Namespace(db, kc.service) - {newKey}
    ensures forall s :: s != kc.service ==> KC.Namespace(c.db, s) == KC.Namespace(db, s)
    ensures c.notices ==
      (if oldKey != "" && oldKey != newKey && oldKey in KC.Keys(kc, db) then KC.Announce(KC.Minus, oldKey) else [])
      + (if newKey in KC.Keys(kc, db) then [] else KC.Announce(KC.Union, newKey))
  {
    var removed :=
      if newKey != oldKey && oldKey != "" then KC.Put(kc, db, oldKey, Optional.None)
      else KC.Change(db, []);
    var written := KC.Put(kc, removed.db, newKey, Optional.Some(Text(valueText)));
    KC.Change(written.db, removed.notices + written.notices)
  }

  /** An observer of the keychain's key set that follows the notices of `Commit` ends with the new key set. */
  lemma CommitNoticesTrackKeys(kc: KC.KeyChain, db: KC.SecureStore, oldKey: string, newKey: string, valueText: string)
    requires newKey != ""
    ensures var c := Commit(kc, db, oldKey, newKey, valueText);
      KC.ObserveAll(KC.Keys(kc, db), c.notices) == KC.Keys(kc, c.db)
  {
    var removed :=
      if newKey != oldKey && oldKey != "" then KC.Put(kc, db, oldKey, Optional.None)
      else KC.Change(db, []);
    if newKey != oldKey && oldKey != "" {
      KC.SetDataNoticesTrackKeys(kc, db, Optional.None, oldKey);
    }
    assert KC.ObserveAll(KC.Keys(kc, db), removed.notices) == KC.Keys(kc, removed.db);
    var written := KC.Put(kc, removed.db, newKey, Optional.Some(Text(valueText)));
    KC.SetDataNoticesTrackKeys(kc, removed.db, Optional.Some(Archive(Text(valueText))), newKey);
    KC.ObserveAllAppend(KC.Keys(kc, db), removed.notices, written.notices);
  }

  /**
   * The checks Done makes on the trimmed key before writing: it must not be
   * empty, and a key that differs from the item's must not name an existing
   * entry.
   */
  function Validate(e: Editor, kc: KC.KeyChain, db: KC.SecureStore, newKey: string): (o: Outcome)
    requires newKey != "" && newKey != e.key ==> KC.Readable(kc, db, newKey)
    ensures o == Saved <==> newKey != "" && (newKey == e.key || newKey !in KC.Keys(kc, db))
    ensures o == Rejected(KeyRequired) <==> newKey == ""
    ensures o == Rejected(KeyExists) <==> newKey != "" && newKey != e.key && newKey in KC.Keys(kc, db)
  {
    if newKey == "" then Rejected(KeyRequired)
    else if newKey != e.key && KC.Get(kc, db, newKey).Some? then Rejected(KeyExists)
    else Saved
  }

  /**
   * The Done bar button. The key typed into the key field is stripped of
   * enclosing whitespace and checked by `Validate`; a rejected key shows an
   * alert and changes nothing. An accepted key is written as `Commit`
   * describes and editing ends.
   */
  function Done(e: Editor, kc: KC.KeyChain, db: KC.SecureStore, keyText: string, valueText: string): (r: Committed)
    requires e.editing
    requires RenameCheckable(e, kc, db, keyText)
    ensures r.outcome == Validate(e, kc, db, Trim(keyText))
    ensures r.outcome.Rejected? ==> r.editor == e && r.db == db && r.notices == []
    ensures r.outcome == Saved ==> r.editor == Editor(None, false, Trim(keyText))
    ensures r.outcome == Saved ==>
      KC.Change(r.db, r.notices) == Commit(kc, db, e.key, Trim(keyText), valueText)
    ensures Invariant(e) ==> Invariant(r.editor)
  {
    var newKey := Trim(keyText);
    match Validate(e, kc, db, newKey)
    case Rejected(alert) => Committed(e, db, [], Rejected(alert))
    case Saved =>
      var c := Commit(kc, db, e.key, newKey, valueText);
      Committed(Editor(None, false, newKey), c.db, c.notices, Saved)
  }

  /** A rename onto an existing entry is refused with the "KEY EXISTS" alert. */
  lemma RenameOntoExistingRejected(e: Editor, kc: KC.KeyChain, db: KC.SecureStore, keyText: string, valueText: string)
    requires e.editing && RenameCheckable(e, kc, db, keyText)
    requires Trim(keyText) != "" && Trim(keyText) != e.key && Trim(keyText) in KC.Keys(kc, db)
    ensures Done(e, kc, db, keyText, valueText).outcome == Rejected(KeyExists)
  {
  }

  /** After a successful Done, the show button reveals exactly the text that was saved. */
  lemma SavedValueIsShown(e: Editor, kc: KC.KeyChain, db: KC.SecureStore, keyText: string, valueText: string)
    requires e.editing && RenameCheckable(e, kc, db, keyText)
    requires Done(e, kc, db, keyText, valueText).outcome == Saved
    ensures var r := Done(e, kc, db, keyText, valueText);
      ShowsText(kc, r.db, r.editor.key) && Show(r.editor, kc, r.db).text == Optional.Some(valueText)
  {
    var r := Done(e, kc, db, keyText, valueText);
    var shown := Show(r.editor, kc, r.db);
    ArchiveInjective(Text(shown.text.value), Text(valueText));
  }

  // ---------------------------------------------------------------------
  // Derived display state.

  datatype BarButton = DoneButton | EditButton

  /** The view made first responder, if any. */
  datatype Responder = KeyField | ValueView | Unchanged

  datatype Display = Display(
    keyEnabled: bool,
    valueHidden: bool,
    valueEditable: bool,
    showTitle: string,
    showHidden: bool,
    barButton: BarButton,
    responder: Responder)

  /** The state of the controls, derived from the mode and the editing flag alone. */
  function ModeDidChange(e: Editor): (d: Display)
    ensures d.keyEnabled == d.valueEditable
    ensures d.showHidden <==> d.barButton == DoneButton
    ensures d.valueHidden <==> d.showTitle == "SHOW"
    ensures d.showTitle == "SHOW" || d.showTitle == "HIDE"
    ensures d.valueHidden <==> e.mode == None
    ensures d.keyEnabled <==> e.editing
    ensures d.showHidden <==> e.editing
    ensures d.barButton == DoneButton <==> e.editing
  {
    Display(
      keyEnabled := e.editing,
      valueHidden := e.mode == None,
      valueEditable := e.editing,
      showTitle := if e.mode == None then "SHOW" else "HIDE",
      showHidden := e.editing,
      barButton := if e.editing then DoneButton else EditButton,
      responder := match e.mode
        case Create => KeyField
        case Edit => ValueView
        case _ => Unchanged)
  }

  /**
   * Under the invariant the controls on screen are exactly those whose
   * actions may be taken: the show button and the Edit button appear only
   * when not editing, the Done button only when editing, and the fields are
   * editable exactly in the Edit and Create modes.
   */
  lemma ControlsMatchGuards(e: Editor)
    requires Invariant(e)
    ensures var d := ModeDidChange(e);
      && (!d.showHidden <==> !e.editing)
      && (d.barButton == EditButton <==> !e.editing)
      && (d.barButton == DoneButton <==> e.editing)
      && (d.valueEditable <==> e.mode == Edit || e.mode == Create)
      && (d.valueHidden <==> e.mode == None)
      && (d.showTitle == "HIDE" <==> e.mode != None)
      && (d.responder == KeyField <==> e.mode == Create)
      && (d.responder == ValueView <==> e.mode == Edit)
  {
  }

  // ---------------------------------------------------------------------
  // Sessions: sequences of taps from a starting state.

  datatype Action = TapShow | TapEdit | TapDone(keyText: string, valueText: string)

  datatype Session = Session(editor: Editor, db: KC.SecureStore)

  /** The effect of one tap, or `None` where the controller would trap. */
  function Step(kc: KC.KeyChain, s: Session, a: Action): Optional.Option<Session> {
    match a
    case TapShow =>
      if s.editor.editing || (s.editor.mode == None && !ShowsText(kc, s.db, s.editor.key)) then Optional.None
      else Optional.Some(Session(Show(s.editor, kc, s.db).editor, s.db))
    case TapEdit =>
      if s.editor.editing then Optional.None
      else Optional.Some(Session(BeginEdit(s.editor), s.db))
    case TapDone(keyText, valueText) =>
      if !s.editor.editing || !RenameCheckable(s.editor, kc, s.db, keyText) then Optional.None
      else
        var c := Done(s.editor, kc, s.db, keyText, valueText);
        Optional.Some(Session(c.editor, c.db))
  }

  function Run(kc: KC.KeyChain, s: Session, actions: seq<Action>): Optional.Option<Session>
    decreases |actions|
  {
    if actions == [] then Optional.Some(s)
    else match Step(kc, s, actions[0])
      case None => Optional.None
      case Some(s') => Run(kc, s', actions[1..])
  }

  /**
   * Every run of taps that does not trap keeps the invariant, and never
   * touches the entries of another service.
   */
  lemma {:induction false} RunKeepsInvariant(kc: KC.KeyChain, s: Session, actions: seq<Action>)
    requires Invariant(s.editor)
    ensures var r := Run(kc, s, actions);
      r.Some? ==>
        && Invariant(r.value.editor)
        && forall svc :: svc != kc.service ==> KC.Namespace(r.value.db, svc) == KC.Namespace(s.db, svc)
    decreases |actions|
  {
    if actions != [] {
      var next := Step(kc, s, actions[0]);
      if next.Some? {
        RunKeepsInvariant(kc, next.value, actions[1..]);
      }
    }
  }

  /** A run started from a freshly initialised controller keeps the invariant throughout. */
  lemma {:induction false} InitialRunKeepsInvariant(kc: KC.KeyChain, db: KC.SecureStore, k: Optional.Option<string>, actions: seq<Action>)
    ensures var r := Run(kc, Session(Init(k), db), actions);
      r.Some? ==> Invariant(r.value.editor)
  {
    RunKeepsInvariant(kc, Session(Init(k), db), actions);
  }
}
