/**
 * The host-side state machine of a custom document (`MainCustomEditorModel`
 * in custom-editors-main.ts), stated as values: a `Model` holds every field
 * the class keeps, and each operation is a function from the model before
 * the call to a `Transition` holding the model after it, the outgoing calls
 * and notifications it makes, in order, and whether it throws or rejects.
 *
 * The class `CustomEditorsMain.MainCustomEditorModel` implements these
 * operations step by step and is proved to agree with them; the lemmas in
 * `CustomDocumentProperties` state what the operations promise.
 */
module CustomDocument {
  import opened Wrappers

  /** Edits are opaque numeric handles chosen by the plugin host. */
  type EditId = int

  /** Identity of one save attempt (a fresh `CancellationTokenSource` in the source). */
  type SaveToken = nat

  type Uri = string

  datatype DocumentError =
    | NotEditable    // pushEdit on a read-only document
    | SaveFailed     // the plugin host rejected `$onSave`
    | SaveAsFailed   // the plugin host rejected `$onSaveAs`
    | CopyFailed     // the file service rejected the copy of a read-only document

  /**
   * Every field of `MainCustomEditorModel`. `nextToken` is the source of
   * fresh save identities; `editable`, `autoSave` and `autoSaveDelay` are
   * fixed when the document is created.
   */
  datatype Model = Model(
    editable: bool,
    edits: seq<EditId>,
    currentEditIndex: int,
    savePoint: int,
    isDirtyFromContentChange: bool,
    ongoingSave: Option<SaveToken>,
    nextToken: SaveToken,
    autoSave: bool,
    autoSaveDelay: int)

  /**
   * What an operation does outside the model: calls on the plugin-host proxy,
   * on the undo/redo service and on the file service, plus the
   * dirty-changed notification and the arming of an autosave timer.
   */
  datatype Effect =
    | DisposeEdits(editIds: seq<EditId>)            // proxy.$disposeEdits
    | UndoEdit(undone: Option<EditId>, dirty: bool)  // proxy.$undo (the id is undefined when the index is past the log)
    | RedoEdit(redone: EditId, dirty: bool)          // proxy.$redo
    | RevertDocument                                 // proxy.$revert
    | SaveDocument(token: SaveToken)                 // proxy.$onSave
    | CancelSave(token: SaveToken)                   // cancel() on the superseded save's token source
    | SaveDocumentAs(target: Uri)                    // proxy.$onSaveAs
    | CopyFile(source: Uri, target: Uri, overwrite: bool)  // fileService.copy with its `overwrite` option
    | PushUndoElement                                // undoRedoService.pushElement
    | RemoveUndoElements                             // undoRedoService.removeElements
    | DisposeDocument                                // proxy.$disposeCustomDocument
    | DirtyChanged                                   // onDirtyChangedEmitter.fire()
    | AutoSaveArmed(delay: int)                      // window.setTimeout(save, delay)

  datatype Transition = Transition(next: Model, effects: seq<Effect>, outcome: Outcome<DocumentError>)

  /**
   * What every reachable model satisfies. The two indices are bounded below
   * only: `savePoint` can point past the end of the log once the edit it
   * named has been cut off, and `revert` copies it into `currentEditIndex`.
   */
  predicate Valid(m: Model) {
    && -1 <= m.currentEditIndex
    && -1 <= m.savePoint
    && (m.ongoingSave.Some? ==> m.ongoingSave.value < m.nextToken)
    && (!m.editable ==> m.ongoingSave.None?)
  }

  /** The parts of a model no operation changes. */
  predicate SameConfig(m: Model, m': Model) {
    m'.editable == m.editable && m'.autoSave == m.autoSave && m'.autoSaveDelay == m.autoSaveDelay
  }

  /** A freshly created document: no edits, both indices at -1, nothing in flight. */
  function Initial(editable: bool, autoSave: bool, autoSaveDelay: int): (m: Model)
    ensures Valid(m) && !Dirty(m)
    ensures m.editable == editable && m.edits == []
    ensures m.currentEditIndex == -1 && m.savePoint == -1
    ensures !m.isDirtyFromContentChange && m.ongoingSave.None?
  {
    Model(editable, [], -1, -1, false, None, 0, autoSave, autoSaveDelay)
  }

  /** The `dirty` getter: derived from the fields, never stored. */
  predicate Dirty(m: Model) {
    if m.isDirtyFromContentChange then true
    else if |m.edits| > 0 then m.savePoint != m.currentEditIndex
    else false
  }

  /** The `readonly` getter. */
  predicate Readonly(m: Model) {
    !m.editable
  }

  /**
   * How many edits survive when everything after `index` is cut off. The
   * source splices from `index + 1` with a delete count one larger than the
   * tail, and splice clamps both, so this is `index + 1` capped at the length.
   */
  function CutPoint(edits: seq<EditId>, index: int): (n: nat)
    requires -1 <= index
    ensures n <= |edits| && n <= index + 1
    ensures n == |edits| || n == index + 1
  {
    if index + 1 <= |edits| then index + 1 else |edits|
  }

  /** The edits up to and including `index`. */
  function Kept(edits: seq<EditId>, index: int): (kept: seq<EditId>)
    requires -1 <= index
  {
    edits[..CutPoint(edits, index)]
  }

  /** The redo branch: the edits after `index`. */
  function Removed(edits: seq<EditId>, index: int): (removed: seq<EditId>)
    requires -1 <= index
  {
    edits[CutPoint(edits, index)..]
  }

  /** `spliceEdits` reports the removed edits in one call, and only when there are some. */
  function DisposeEffects(removed: seq<EditId>): (effects: seq<Effect>) {
    if |removed| > 0 then [DisposeEdits(removed)] else []
  }

  /**
   * What `change` does after its mutation: notify when `dirty` flipped, then
   * arm an autosave timer when autosave is on.
   */
  function ChangeEffects(wasDirty: bool, after: Model): (effects: seq<Effect>) {
    (if Dirty(after) != wasDirty then [DirtyChanged] else [])
    + (if after.autoSave then [AutoSaveArmed(after.autoSaveDelay)] else [])
  }

  /** `edits[i]` in the source, which is `undefined` outside the log. */
  function EditAt(edits: seq<EditId>, i: int): (r: Option<EditId>)
    ensures r.Some? <==> 0 <= i < |edits|
    ensures r.Some? ==> r.value == edits[i]
  {
    if 0 <= i < |edits| then Some(edits[i]) else None
  }

  /** `pushEdit(editId, label)`; the label is not used by the host model. */
  function PushEditStep(m: Model, editId: EditId): (t: Transition)
    requires Valid(m)
    ensures Valid(t.next) && SameConfig(m, t.next)
    ensures !m.editable ==> t == Transition(m, [], Fail(NotEditable))
    ensures m.editable ==> t.outcome == Pass && |t.next.edits| > 0
    ensures m.editable ==>
              && t.next.currentEditIndex == |t.next.edits| - 1
              && t.next.edits[|t.next.edits| - 1] == editId
  {
    if !m.editable then
      Transition(m, [], Fail(NotEditable))
    else
      var kept := Kept(m.edits, m.currentEditIndex);
      var next := m.(edits := kept + [editId], currentEditIndex := |kept|);
      Transition(next,
        DisposeEffects(Removed(m.edits, m.currentEditIndex))
        + ChangeEffects(Dirty(m), next)
        + [PushUndoElement],
        Pass)
  }

  /** `changeContent()`: marks the document dirty, whether or not it is editable. */
  function ChangeContentStep(m: Model): (t: Transition)
    requires Valid(m)
    ensures Valid(t.next) && SameConfig(m, t.next) && t.outcome == Pass
    ensures t.next == m.(isDirtyFromContentChange := true)
    ensures Dirty(t.next)
  {
    var next := m.(isDirtyFromContentChange := true);
    Transition(next, ChangeEffects(Dirty(m), next), Pass)
  }

  /** `undo()`, invoked through the undo/redo service. */
  function UndoStep(m: Model): (t: Transition)
    requires Valid(m)
    ensures Valid(t.next) && SameConfig(m, t.next) && t.outcome == Pass
  {
    if !m.editable || m.currentEditIndex < 0 then
      Transition(m, [], Pass)
    else
      var next := m.(currentEditIndex := m.currentEditIndex - 1);
      Transition(next,
        ChangeEffects(Dirty(m), next)
        + [UndoEdit(EditAt(m.edits, m.currentEditIndex), Dirty(next))],
        Pass)
  }

  /** `redo()`, invoked through the undo/redo service. */
  function RedoStep(m: Model): (t: Transition)
    requires Valid(m)
    ensures Valid(t.next) && SameConfig(m, t.next) && t.outcome == Pass
  {
    if !m.editable || m.currentEditIndex >= |m.edits| - 1 then
      Transition(m, [], Pass)
    else
      var next := m.(currentEditIndex := m.currentEditIndex + 1);
      Transition(next,
        ChangeEffects(Dirty(m), next)
        + [RedoEdit(m.edits[m.currentEditIndex + 1], Dirty(next))],
        Pass)
  }

  /**
   * `revert()`: asks the plugin host to revert (without waiting for it),
   * then returns to the save point and drops the edits after it.
   */
  function RevertStep(m: Model): (t: Transition)
    requires Valid(m)
    ensures Valid(t.next) && SameConfig(m, t.next) && t.outcome == Pass
  {
    if !m.editable || (m.currentEditIndex == m.savePoint && !m.isDirtyFromContentChange) then
      Transition(m, [], Pass)
    else
      var next := m.(isDirtyFromContentChange := false,
                     currentEditIndex := m.savePoint,
                     edits := Kept(m.edits, m.savePoint));
      Transition(next,
        [RevertDocument]
        + DisposeEffects(Removed(m.edits, m.savePoint))
        + ChangeEffects(Dirty(m), next),
        Pass)
  }

  /**
   * The synchronous first half of `save()`: request the save under a fresh
   * token, then cancel the save in flight (if any) and make the new one current.
   */
  function BeginSaveStep(m: Model): (t: Transition)
    requires Valid(m)
    ensures Valid(t.next) && SameConfig(m, t.next) && t.outcome == Pass
    ensures m.editable ==> t.next.ongoingSave == Some(m.nextToken)
    ensures m.editable ==> m.ongoingSave != t.next.ongoingSave
    ensures m.editable ==> t.next == m.(ongoingSave := Some(m.nextToken), nextToken := m.nextToken + 1)
    ensures m.editable ==> |t.effects| > 0 && t.effects[0] == SaveDocument(m.nextToken)
    ensures m.editable && m.ongoingSave.Some? ==> t.effects == [SaveDocument(m.nextToken), CancelSave(m.ongoingSave.value)]
    ensures m.editable && m.ongoingSave.None? ==> t.effects == [SaveDocument(m.nextToken)]
    ensures !m.editable ==> t == Transition(m, [], Pass)
  {
    if !m.editable then
      Transition(m, [], Pass)
    else
      var token := m.nextToken;
      Transition(m.(ongoingSave := Some(token), nextToken := token + 1),
        [SaveDocument(token)]
        + (if m.ongoingSave.Some? then [CancelSave(m.ongoingSave.value)] else []),
        Pass)
  }

  /**
   * The second half of `save()`, once the save requested under `token` has
   * resolved (`ok`) or rejected. Only the save that is still current commits,
   * and only it clears the current-save marker.
   */
  function CompleteSaveStep(m: Model, token: SaveToken, ok: bool): (t: Transition)
    requires Valid(m)
    ensures Valid(t.next) && SameConfig(m, t.next)
    ensures t.outcome == if ok then Pass else Fail(SaveFailed)
  {
    var owner := m.ongoingSave == Some(token);
    if ok && owner then
      var committed := m.(isDirtyFromContentChange := false, savePoint := m.currentEditIndex);
      Transition(committed.(ongoingSave := None), ChangeEffects(Dirty(m), committed), Pass)
    else if ok then
      Transition(m, [], Pass)
    else
      Transition(if owner then m.(ongoingSave := None) else m, [], Fail(SaveFailed))
  }

  /**
   * `saveAs(source, target, options)`, at the point where its awaited call
   * settles with `ok`: an editable document asks the plugin host to save at
   * the target and moves the save point; a read-only one copies the file.
   * `overwrite` is the caller's option (false when none is given); it is
   * accepted and ignored, and the copy never overwrites.
   */
  function SaveAsStep(m: Model, source: Uri, target: Uri, overwrite: bool, ok: bool): (t: Transition)
    requires Valid(m)
    ensures Valid(t.next) && SameConfig(m, t.next)
    ensures t.outcome == if ok then Pass else if m.editable then Fail(SaveAsFailed) else Fail(CopyFailed)
  {
    if m.editable then
      if ok then
        var next := m.(savePoint := m.currentEditIndex);
        Transition(next, [SaveDocumentAs(target)] + ChangeEffects(Dirty(m), next), Pass)
      else
        Transition(m, [SaveDocumentAs(target)], Fail(SaveAsFailed))
    else
      Transition(m, [CopyFile(source, target, false)], if ok then Pass else Fail(CopyFailed))
  }

  /** `dispose()`: the calls it makes; it changes no field. */
  function DisposeCalls(m: Model): (effects: seq<Effect>)
    ensures DisposeDocument in effects
    ensures RemoveUndoElements in effects <==> m.editable
  {
    (if m.editable then [RemoveUndoElements] else []) + [DisposeDocument]
  }

  /** One call into the model, as a plugin host, the undo/redo service or the user makes it. */
  datatype Op =
    | PushEdit(editId: EditId)
    | ChangeContent
    | Undo
    | Redo
    | Revert
    | BeginSave
    | CompleteSave(token: SaveToken, ok: bool)
    | SaveAs(source: Uri, target: Uri, overwrite: bool, ok: bool)

  function Step(m: Model, op: Op): (t: Transition)
    requires Valid(m)
    ensures Valid(t.next) && SameConfig(m, t.next)
  {
    match op
    case PushEdit(id) => PushEditStep(m, id)
    case ChangeContent => ChangeContentStep(m)
    case Undo => UndoStep(m)
    case Redo => RedoStep(m)
    case Revert => RevertStep(m)
    case BeginSave => BeginSaveStep(m)
    case CompleteSave(token, ok) => CompleteSaveStep(m, token, ok)
    case SaveAs(source, target, overwrite, ok) => SaveAsStep(m, source, target, overwrite, ok)
  }

  /** The model after a sequence of calls. */
  function Run(m: Model, ops: seq<Op>): (r: Model)
    requires Valid(m)
    ensures Valid(r) && SameConfig(m, r)
    decreases |ops|
  {
    if ops == [] then m else Run(Step(m, ops[0]).next, ops[1..])
  }

  /** Every effect a sequence of calls produces, in order. */
  function RunEffects(m: Model, ops: seq<Op>): (effects: seq<Effect>)
    requires Valid(m)
    decreases |ops|
  {
    if ops == [] then [] else Step(m, ops[0]).effects + RunEffects(Step(m, ops[0]).next, ops[1..])
  }

  /** How many times `e` occurs among `effects`. */
  function Count(effects: seq<Effect>, e: Effect): (n: nat) {
    if effects == [] then 0
    else (if effects[0] == e then 1 else 0) + Count(effects[1..], e)
  }
}
