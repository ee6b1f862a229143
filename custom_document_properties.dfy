/**
 * What the custom-document operations promise, proved about the step
 * functions of `CustomDocument`: per call (the edit log, the indices, the
 * calls made and the notifications fired) and across any sequence of calls.
 */
module CustomDocumentProperties {
  import opened Wrappers
  import opened CustomDocument

  // ---------------------------------------------------------------------------
  // Derived dirtiness and the change notification

  lemma {:induction false} CountAppend(a: seq<Effect>, b: seq<Effect>, e: Effect)
    ensures Count(a + b, e) == Count(a, e) + Count(b, e)
  {
    if a == [] {
      assert a + b == b;
    } else {
      assert (a + b)[0] == a[0];
      assert (a + b)[1..] == a[1..] + b;
      CountAppend(a[1..], b, e);
    }
  }

  /** `change` fires the notification once when `dirty` flipped and never otherwise. */
  lemma ChangeFiresOnFlip(wasDirty: bool, after: Model)
    ensures Count(ChangeEffects(wasDirty, after), DirtyChanged) == if Dirty(after) != wasDirty then 1 else 0
    ensures Count(ChangeEffects(wasDirty, after), PushUndoElement) == 0
    ensures forall e :: e in ChangeEffects(wasDirty, after) ==> e == DirtyChanged || e.AutoSaveArmed?
  {
    var fire: seq<Effect> := if Dirty(after) != wasDirty then [DirtyChanged] else [];
    var arm: seq<Effect> := if after.autoSave then [AutoSaveArmed(after.autoSaveDelay)] else [];
    CountAppend(fire, arm, DirtyChanged);
    CountAppend(fire, arm, PushUndoElement);
  }

  lemma {:induction false} CountAbsent(effects: seq<Effect>, e: Effect)
    requires e !in effects
    ensures Count(effects, e) == 0
  {
    if effects != [] {
      assert effects[0] in effects;
      assert forall x :: x in effects[1..] ==> x in effects;
      CountAbsent(effects[1..], e);
    }
  }

  lemma {:induction false} CountPositive(effects: seq<Effect>, e: Effect)
    ensures Count(effects, e) > 0 <==> e in effects
  {
    if effects != [] {
      CountPositive(effects[1..], e);
      assert effects == [effects[0]] + effects[1..];
    }
  }

  /** A transition fires the dirty-changed notification once if it flips `dirty`, and never otherwise. */
  predicate FiresIffFlip(m: Model, t: Transition) {
    Count(t.effects, DirtyChanged) == if Dirty(t.next) != Dirty(m) then 1 else 0
  }

  /** `before + change + after` fires as `change` does when `before` and `after` never fire. */
  lemma ChangeBetween(m: Model, t: Transition, before: seq<Effect>, after: seq<Effect>)
    requires t.effects == before + ChangeEffects(Dirty(m), t.next) + after
    requires DirtyChanged !in before && DirtyChanged !in after
    ensures FiresIffFlip(m, t)
  {
    var c := ChangeEffects(Dirty(m), t.next);
    ChangeFiresOnFlip(Dirty(m), t.next);
    CountAbsent(before, DirtyChanged);
    CountAbsent(after, DirtyChanged);
    CountAppend(before, c, DirtyChanged);
    CountAppend(before + c, after, DirtyChanged);
  }

  lemma PushEditFiresIffFlip(m: Model, editId: EditId)
    requires Valid(m)
    ensures FiresIffFlip(m, PushEditStep(m, editId))
  {
    if m.editable {
      ChangeBetween(m, PushEditStep(m, editId), DisposeEffects(Removed(m.edits, m.currentEditIndex)), [PushUndoElement]);
    }
  }

  lemma ChangeContentFiresIffFlip(m: Model)
    requires Valid(m)
    ensures FiresIffFlip(m, ChangeContentStep(m))
  {
    var t := ChangeContentStep(m);
    assert t.effects == [] + ChangeEffects(Dirty(m), t.next) + [];
    ChangeBetween(m, t, [], []);
  }

  lemma UndoFiresIffFlip(m: Model)
    requires Valid(m)
    ensures FiresIffFlip(m, UndoStep(m))
  {
    if m.editable && m.currentEditIndex >= 0 {
      var t := UndoStep(m);
      assert t.effects == [] + ChangeEffects(Dirty(m), t.next) + [t.effects[|t.effects| - 1]];
      ChangeBetween(m, t, [], [t.effects[|t.effects| - 1]]);
    }
  }

  lemma RedoFiresIffFlip(m: Model)
    requires Valid(m)
    ensures FiresIffFlip(m, RedoStep(m))
  {
    if m.editable && m.currentEditIndex < |m.edits| - 1 {
      var t := RedoStep(m);
      assert t.effects == [] + ChangeEffects(Dirty(m), t.next) + [t.effects[|t.effects| - 1]];
      ChangeBetween(m, t, [], [t.effects[|t.effects| - 1]]);
    }
  }

  lemma RevertFiresIffFlip(m: Model)
    requires Valid(m)
    ensures FiresIffFlip(m, RevertStep(m))
  {
    if m.editable && !(m.currentEditIndex == m.savePoint && !m.isDirtyFromContentChange) {
      RevertEffects(m);
      ChangeBetween(m, RevertStep(m), [RevertDocument] + DisposeEffects(Removed(m.edits, m.savePoint)), []);
    }
  }

  /** When `revert` acts, its only notification comes from `change`. */
  lemma RevertEffects(m: Model)
    requires Valid(m) && m.editable && !(m.currentEditIndex == m.savePoint && !m.isDirtyFromContentChange)
    ensures var before := [RevertDocument] + DisposeEffects(Removed(m.edits, m.savePoint));
      && RevertStep(m).effects == before + ChangeEffects(Dirty(m), RevertStep(m).next) + []
      && DirtyChanged !in before
  {
    var before := [RevertDocument] + DisposeEffects(Removed(m.edits, m.savePoint));
    assert RevertStep(m).effects == before + ChangeEffects(Dirty(m), RevertStep(m).next);
  }

  lemma BeginSaveFiresIffFlip(m: Model)
    requires Valid(m)
    ensures FiresIffFlip(m, BeginSaveStep(m))
    ensures Count(BeginSaveStep(m).effects, DirtyChanged) == 0
    ensures Dirty(BeginSaveStep(m).next) == Dirty(m)
  {
    CountAbsent(BeginSaveStep(m).effects, DirtyChanged);
  }

  lemma CompleteSaveFiresIffFlip(m: Model, token: SaveToken, ok: bool)
    requires Valid(m)
    ensures FiresIffFlip(m, CompleteSaveStep(m, token, ok))
  {
    if ok && m.ongoingSave == Some(token) {
      var committed := m.(isDirtyFromContentChange := false, savePoint := m.currentEditIndex);
      ChangeFiresOnFlip(Dirty(m), committed);
    }
  }

  lemma SaveAsFiresIffFlip(m: Model, source: Uri, target: Uri, overwrite: bool, ok: bool)
    requires Valid(m)
    ensures FiresIffFlip(m, SaveAsStep(m, source, target, overwrite, ok))
  {
    var t := SaveAsStep(m, source, target, overwrite, ok);
    if m.editable && ok {
      assert t.effects == [SaveDocumentAs(target)] + ChangeEffects(Dirty(m), t.next) + [];
      ChangeBetween(m, t, [SaveDocumentAs(target)], []);
    } else {
      CountAbsent(t.effects, DirtyChanged);
    }
  }

  /**
   * Every call fires the dirty-changed notification exactly when it flips
   * `dirty`, and at most once.
   */
  lemma StepFiresIffFlip(m: Model, op: Op)
    requires Valid(m)
    ensures Count(Step(m, op).effects, DirtyChanged) == if Dirty(Step(m, op).next) != Dirty(m) then 1 else 0
  {
    match op
    case PushEdit(id) => PushEditFiresIffFlip(m, id);
    case ChangeContent => ChangeContentFiresIffFlip(m);
    case Undo => UndoFiresIffFlip(m);
    case Redo => RedoFiresIffFlip(m);
    case Revert => RevertFiresIffFlip(m);
    case BeginSave => BeginSaveFiresIffFlip(m);
    case CompleteSave(token, ok) => CompleteSaveFiresIffFlip(m, token, ok);
    case SaveAs(source, target, overwrite, ok) => SaveAsFiresIffFlip(m, source, target, overwrite, ok);
  }

  /**
   * Across any sequence of calls, a listener that toggles its own copy of
   * `dirty` on each notification ends up with the model's value: the number
   * of notifications is odd exactly when `dirty` differs from where it started.
   */
  lemma {:induction false} NotificationsTrackDirty(m: Model, ops: seq<Op>)
    requires Valid(m)
    ensures Count(RunEffects(m, ops), DirtyChanged) % 2 == if Dirty(Run(m, ops)) == Dirty(m) then 0 else 1
    decreases |ops|
  {
    if ops != [] {
      var t := Step(m, ops[0]);
      var rest := ops[1..];
      RunUnfolds(m, ops);
      StepFiresIffFlip(m, ops[0]);
      NotificationsTrackDirty(t.next, rest);
      ParityAppend(t.effects, RunEffects(t.next, rest), Dirty(m), Dirty(t.next), Dirty(Run(t.next, rest)));
    }
  }

  /** A flip followed by any parity-tracking tail tracks parity as a whole. */
  lemma ParityAppend(first: seq<Effect>, rest: seq<Effect>, d0: bool, d1: bool, d2: bool)
    requires Count(first, DirtyChanged) == if d1 != d0 then 1 else 0
    requires Count(rest, DirtyChanged) % 2 == if d2 == d1 then 0 else 1
    ensures Count(first + rest, DirtyChanged) % 2 == if d2 == d0 then 0 else 1
  {
    CountAppend(first, rest, DirtyChanged);
    ParityStep(Count(first, DirtyChanged), Count(rest, DirtyChanged), d0, d1, d2);
  }

  /** One call, then the rest. */
  lemma RunUnfolds(m: Model, ops: seq<Op>)
    requires Valid(m) && ops != []
    ensures Run(m, ops) == Run(Step(m, ops[0]).next, ops[1..])
    ensures RunEffects(m, ops) == Step(m, ops[0]).effects + RunEffects(Step(m, ops[0]).next, ops[1..])
  {
  }

  lemma ParityStep(a: nat, b: nat, d0: bool, d1: bool, d2: bool)
    requires a == if d1 != d0 then 1 else 0
    requires b % 2 == if d2 == d1 then 0 else 1
    ensures (a + b) % 2 == if d2 == d0 then 0 else 1
  {
  }

  // ---------------------------------------------------------------------------
  // pushEdit and the redo branch

  /** Cutting the log after `index` splits it into the kept prefix and the redo branch. */
  lemma SpliceSplits(edits: seq<EditId>, index: int)
    requires -1 <= index
    ensures Kept(edits, index) + Removed(edits, index) == edits
    ensures |Kept(edits, index)| <= index + 1
    ensures Removed(edits, index) == [] <==> index >= |edits| - 1
    ensures forall i :: 0 <= i < |Removed(edits, index)| ==> Removed(edits, index)[i] == edits[index + 1 + i]
  {
  }

  /**
   * On an editable document `pushEdit` drops exactly the edits after the
   * current one, reports them in one `$disposeEdits` call only when there are
   * some, appends the new edit as the current one and pushes one undo element.
   * On a read-only document it throws and changes nothing.
   */
  lemma PushEditCutsRedoBranch(m: Model, editId: EditId)
    requires Valid(m)
    ensures var t := PushEditStep(m, editId);
      m.editable ==>
        && t.next.edits == Kept(m.edits, m.currentEditIndex) + [editId]
        && t.next.currentEditIndex == |t.next.edits| - 1
        && t.next.savePoint == m.savePoint
        && t.next.isDirtyFromContentChange == m.isDirtyFromContentChange
        && t.next.ongoingSave == m.ongoingSave
        && Count(t.effects, DisposeEdits(Removed(m.edits, m.currentEditIndex)))
           == (if m.currentEditIndex < |m.edits| - 1 then 1 else 0)
        && (forall e :: e in t.effects && e.DisposeEdits? ==> e.editIds == Removed(m.edits, m.currentEditIndex))
        && Count(t.effects, PushUndoElement) == 1
    ensures var t := PushEditStep(m, editId);
      !m.editable ==> t.next == m && t.effects == [] && t.outcome == Fail(NotEditable)
  {
    if m.editable {
      var t := PushEditStep(m, editId);
      SpliceSplits(m.edits, m.currentEditIndex);
      ChangeFiresOnFlip(Dirty(m), t.next);
      PushEditEffectCounts(Removed(m.edits, m.currentEditIndex), ChangeEffects(Dirty(m), t.next));
    }
  }

  /** The calls of an editable `pushEdit`, counted: `change`'s effects never dispose edits or push undo elements. */
  lemma PushEditEffectCounts(removed: seq<EditId>, c: seq<Effect>)
    requires forall e :: e in c ==> e == DirtyChanged || e.AutoSaveArmed?
    ensures var effects := DisposeEffects(removed) + c + [PushUndoElement];
      && Count(effects, DisposeEdits(removed)) == (if |removed| > 0 then 1 else 0)
      && (forall e :: e in effects && e.DisposeEdits? ==> e.editIds == removed)
      && Count(effects, PushUndoElement) == 1
  {
    var d := DisposeEffects(removed);
    CountAbsent(c, DisposeEdits(removed));
    CountAbsent(c, PushUndoElement);
    CountAppend(d, c, DisposeEdits(removed));
    CountAppend(d + c, [PushUndoElement], DisposeEdits(removed));
    CountAppend(d, c, PushUndoElement);
    CountAppend(d + c, [PushUndoElement], PushUndoElement);
  }

  // ---------------------------------------------------------------------------
  // undo and redo

  /**
   * `undo` acts exactly when the document is editable and an edit is
   * applied; it then moves one edit back and reports the edit it left (which
   * is `undefined` when the index had run past the log). It never touches
   * the log, the save point or the save in flight.
   */
  lemma UndoMovesBack(m: Model)
    requires Valid(m)
    ensures var t := UndoStep(m);
      && t.next.edits == m.edits && t.next.savePoint == m.savePoint
      && t.next.isDirtyFromContentChange == m.isDirtyFromContentChange
      && t.next.ongoingSave == m.ongoingSave && t.next.nextToken == m.nextToken
    ensures var t := UndoStep(m);
      (m.editable && m.currentEditIndex >= 0) <==> t.next != m
    ensures var t := UndoStep(m);
      m.editable && m.currentEditIndex >= 0 ==>
        && t.next.currentEditIndex == m.currentEditIndex - 1
        && |t.effects| > 0
        && t.effects[|t.effects| - 1] == UndoEdit(EditAt(m.edits, m.currentEditIndex), Dirty(t.next))
    ensures var t := UndoStep(m);
      !(m.editable && m.currentEditIndex >= 0) ==> t.effects == []
  {
  }

  /**
   * `redo` acts exactly when the document is editable and some edit lies
   * after the current one; it then moves one edit forward and reports that edit.
   */
  lemma RedoMovesForward(m: Model)
    requires Valid(m)
    ensures var t := RedoStep(m);
      && t.next.edits == m.edits && t.next.savePoint == m.savePoint
      && t.next.isDirtyFromContentChange == m.isDirtyFromContentChange
      && t.next.ongoingSave == m.ongoingSave && t.next.nextToken == m.nextToken
    ensures var t := RedoStep(m);
      (m.editable && m.currentEditIndex < |m.edits| - 1) <==> t.next != m
    ensures var t := RedoStep(m);
      m.editable && m.currentEditIndex < |m.edits| - 1 ==>
        && t.next.currentEditIndex == m.currentEditIndex + 1
        && |t.effects| > 0
        && t.effects[|t.effects| - 1] == RedoEdit(m.edits[m.currentEditIndex + 1], Dirty(t.next))
    ensures var t := RedoStep(m);
      !(m.editable && m.currentEditIndex < |m.edits| - 1) ==> t.effects == []
  {
  }

  /**
   * Undo followed by redo, with the current index inside the log, restores
   * the whole model (so `currentEditIndex` and `dirty` too), and redo replays
   * the very edit undo reported.
   */
  lemma UndoThenRedoRestores(m: Model)
    requires Valid(m) && m.editable
    requires 0 <= m.currentEditIndex < |m.edits|
    ensures var u := UndoStep(m); var r := RedoStep(u.next);
      && r.next == m
      && u.effects[|u.effects| - 1] == UndoEdit(Some(m.edits[m.currentEditIndex]), Dirty(u.next))
      && r.effects[|r.effects| - 1] == RedoEdit(m.edits[m.currentEditIndex], Dirty(m))
  {
  }

  /** Redo followed by undo restores the whole model as well. */
  lemma RedoThenUndoRestores(m: Model)
    requires Valid(m) && m.editable
    requires m.currentEditIndex < |m.edits| - 1
    ensures UndoStep(RedoStep(m).next).next == m
  {
  }

  // ---------------------------------------------------------------------------
  // revert

  /**
   * After `revert` an editable document is clean. On a read-only document,
   * or when the index is at the save point and no content change is pending,
   * it changes nothing and makes no call. Otherwise it first asks the plugin
   * host to revert, goes back to the save point, drops the edits after it
   * (reporting them in one `$disposeEdits` call, only when there are some),
   * and leaves nothing to redo.
   */
  lemma RevertReturnsToSavePoint(m: Model)
    requires Valid(m)
    ensures var t := RevertStep(m);
      m.editable ==> !Dirty(t.next) && !t.next.isDirtyFromContentChange
    ensures var t := RevertStep(m);
      t.next.ongoingSave == m.ongoingSave && t.next.nextToken == m.nextToken
    ensures var t := RevertStep(m);
      (!m.editable || (m.currentEditIndex == m.savePoint && !m.isDirtyFromContentChange)) ==>
        t == Transition(m, [], Pass)
    ensures var t := RevertStep(m);
      m.editable && (m.currentEditIndex != m.savePoint || m.isDirtyFromContentChange) ==>
        && t.next.currentEditIndex >= |t.next.edits| - 1
        && RedoStep(t.next).next == t.next
        && t.next.currentEditIndex == m.savePoint
        && t.next.savePoint == m.savePoint
        && t.next.edits == Kept(m.edits, m.savePoint)
        && t.effects[0] == RevertDocument
        && Count(t.effects, DisposeEdits(Removed(m.edits, m.savePoint)))
           == (if m.savePoint < |m.edits| - 1 then 1 else 0)
        && (forall e :: e in t.effects && e.DisposeEdits? ==> e.editIds == Removed(m.edits, m.savePoint))
  {
    if m.editable && (m.currentEditIndex != m.savePoint || m.isDirtyFromContentChange) {
      var t := RevertStep(m);
      SpliceSplits(m.edits, m.savePoint);
      ChangeFiresOnFlip(Dirty(m), t.next);
      RevertEffectCounts(Removed(m.edits, m.savePoint), ChangeEffects(Dirty(m), t.next));
    }
  }

  /** The calls of a `revert` that acts, counted: only the splice disposes edits. */
  lemma RevertEffectCounts(removed: seq<EditId>, c: seq<Effect>)
    requires forall e :: e in c ==> e == DirtyChanged || e.AutoSaveArmed?
    ensures var effects := [RevertDocument] + DisposeEffects(removed) + c;
      && Count(effects, DisposeEdits(removed)) == (if |removed| > 0 then 1 else 0)
      && (forall e :: e in effects && e.DisposeEdits? ==> e.editIds == removed)
  {
    var d := DisposeEffects(removed);
    CountAbsent(c, DisposeEdits(removed));
    CountAbsent([RevertDocument], DisposeEdits(removed));
    CountAppend([RevertDocument], d, DisposeEdits(removed));
    CountAppend([RevertDocument] + d, c, DisposeEdits(removed));
  }

  // ---------------------------------------------------------------------------
  // save: last writer wins

  /**
   * A save whose token is no longer current leaves the model as it is and
   * makes no call, whether it resolved or rejected; only the rejection is
   * passed on.
   */
  lemma SupersededSaveIsInert(m: Model, token: SaveToken, ok: bool)
    requires Valid(m)
    requires m.ongoingSave != Some(token)
    ensures CompleteSaveStep(m, token, ok).next == m
    ensures CompleteSaveStep(m, token, ok).effects == []
  {
  }

  /**
   * The save that is still current commits when it resolves (save point at
   * the current edit, content flag cleared, so the document is clean), keeps
   * the log, and in either case releases the current-save marker.
   */
  lemma CurrentSaveCommits(m: Model, token: SaveToken, ok: bool)
    requires Valid(m)
    requires m.ongoingSave == Some(token)
    ensures var t := CompleteSaveStep(m, token, ok);
      && t.next.ongoingSave == None
      && t.next.edits == m.edits && t.next.currentEditIndex == m.currentEditIndex
    ensures var t := CompleteSaveStep(m, token, ok);
      ok ==> t.next.savePoint == m.currentEditIndex && !t.next.isDirtyFromContentChange && !Dirty(t.next)
    ensures var t := CompleteSaveStep(m, token, ok);
      !ok ==> t.next == m.(ongoingSave := None) && t.outcome == Fail(SaveFailed)
  {
  }

  /**
   * Two saves started one after the other: the second requests its save
   * before cancelling the first; the first's completion changes nothing,
   * however it ends; the second's success commits and leaves the document clean.
   */
  lemma LastSaveWins(m: Model, firstOk: bool)
    requires Valid(m) && m.editable
    ensures var first := m.nextToken;
      var m1 := BeginSaveStep(m).next;
      var b2 := BeginSaveStep(m1);
      var m3 := CompleteSaveStep(b2.next, first, firstOk).next;
      && b2.effects == [SaveDocument(first + 1), CancelSave(first)]
      && m3 == b2.next
      && CompleteSaveStep(m3, first + 1, true).next.savePoint == m.currentEditIndex
      && !Dirty(CompleteSaveStep(m3, first + 1, true).next)
      && CompleteSaveStep(m3, first + 1, true).next.ongoingSave == None
  {
  }

  /** `save` on a read-only document does nothing at all. */
  lemma ReadOnlySaveDoesNothing(m: Model)
    requires Valid(m) && !m.editable
    ensures BeginSaveStep(m) == Transition(m, [], Pass)
  {
  }

  // ---------------------------------------------------------------------------
  // saveAs

  /**
   * A successful `saveAs` on an editable document moves the save point to the
   * current edit and keeps the content flag, so the document is then dirty
   * exactly when that flag is set. A read-only document is only copied, and
   * never over an existing target, whatever overwrite option the caller gave.
   */
  lemma SaveAsMovesSavePoint(m: Model, source: Uri, target: Uri, overwrite: bool, ok: bool)
    requires Valid(m)
    ensures var t := SaveAsStep(m, source, target, overwrite, ok);
      m.editable && ok ==>
        && t.next == m.(savePoint := m.currentEditIndex)
        && Dirty(t.next) == m.isDirtyFromContentChange
        && t.effects[0] == SaveDocumentAs(target)
    ensures var t := SaveAsStep(m, source, target, overwrite, ok);
      m.editable && !ok ==> t.next == m && t.outcome == Fail(SaveAsFailed)
    ensures var t := SaveAsStep(m, source, target, overwrite, ok);
      !m.editable ==> t.next == m && t.effects == [CopyFile(source, target, false)]
    ensures SaveAsStep(m, source, target, overwrite, ok) == SaveAsStep(m, source, target, false, ok)
  {
  }

  // ---------------------------------------------------------------------------
  // Properties of whole sequences of calls

  /**
   * A read-only document never changes its log, its indices or its save
   * state, whatever is called on it; only `changeContent` can make it dirty,
   * and once dirty it stays dirty, since `save` and `revert` do nothing on it.
   */
  lemma {:induction false} ReadOnlyKeepsEditLog(m: Model, ops: seq<Op>)
    requires Valid(m) && !m.editable
    ensures var r := Run(m, ops);
      && r.edits == m.edits
      && r.currentEditIndex == m.currentEditIndex
      && r.savePoint == m.savePoint
      && r.ongoingSave == None
      && r.isDirtyFromContentChange == (m.isDirtyFromContentChange || ChangeContent in ops)
    decreases |ops|
  {
    if ops != [] {
      var m1 := Step(m, ops[0]).next;
      ReadOnlyKeepsEditLog(m1, ops[1..]);
      assert ops == [ops[0]] + ops[1..];
      assert ChangeContent in ops <==> ops[0] == ChangeContent || ChangeContent in ops[1..];
    }
  }

  /**
   * After a `pushEdit` the current edit is the last one, whatever calls came
   * before, and the new edit is the one current.
   */
  lemma {:induction false} PushEditEndsAtLastEdit(m: Model, ops: seq<Op>, editId: EditId)
    requires Valid(m) && m.editable
    ensures var r := Run(m, ops + [PushEdit(editId)]);
      |r.edits| > 0 && r.currentEditIndex == |r.edits| - 1 && r.edits[|r.edits| - 1] == editId
    decreases |ops|
  {
    if ops == [] {
      assert [] + [PushEdit(editId)] == [PushEdit(editId)];
    } else {
      assert (ops + [PushEdit(editId)])[1..] == ops[1..] + [PushEdit(editId)];
      PushEditEndsAtLastEdit(Step(m, ops[0]).next, ops[1..], editId);
    }
  }

  /**
   * Every call leaves `nextToken` no smaller, and the current save is the
   * same as before, none, or the one just issued under the old `nextToken`.
   */
  lemma StepIssuesOnlyFreshTokens(m: Model, op: Op)
    requires Valid(m)
    ensures var n := Step(m, op).next;
      && n.nextToken >= m.nextToken
      && (n.ongoingSave == m.ongoingSave || n.ongoingSave.None? || n.ongoingSave == Some(m.nextToken))
      && (m.ongoingSave.Some? && n.ongoingSave.None? ==> op.CompleteSave? && op.token == m.ongoingSave.value)
      && (n.ongoingSave.Some? && n.ongoingSave != m.ongoingSave ==> op.BeginSave?)
  {
  }

  /**
   * Once a save is superseded it never becomes current again, whatever calls
   * follow, so by `SupersededSaveIsInert` its completion stays inert however
   * the calls interleave.
   */
  lemma {:induction false} SupersededStaysSuperseded(m: Model, ops: seq<Op>, token: SaveToken)
    requires Valid(m) && token < m.nextToken && m.ongoingSave != Some(token)
    ensures Run(m, ops).ongoingSave != Some(token)
    decreases |ops|
  {
    if ops != [] {
      StepIssuesOnlyFreshTokens(m, ops[0]);
      RunUnfolds(m, ops);
      SupersededStaysSuperseded(Step(m, ops[0]).next, ops[1..], token);
    }
  }

  /**
   * The current save stays current through any calls other than a new save
   * or its own completion, so by `CurrentSaveCommits` it commits when it
   * resolves: together with `SupersededStaysSuperseded`, the last save
   * started is the one that commits.
   */
  lemma {:induction false} CurrentStaysCurrent(m: Model, ops: seq<Op>, token: SaveToken)
    requires Valid(m) && m.ongoingSave == Some(token)
    requires forall i :: 0 <= i < |ops| ==> !ops[i].BeginSave? && !(ops[i].CompleteSave? && ops[i].token == token)
    ensures Run(m, ops).ongoingSave == Some(token)
    decreases |ops|
  {
    if ops != [] {
      StepIssuesOnlyFreshTokens(m, ops[0]);
      RunUnfolds(m, ops);
      CurrentStaysCurrent(Step(m, ops[0]).next, ops[1..], token);
    }
  }

  /**
   * On a read-only document, undo, redo, revert and save change nothing and
   * make no call; every call makes at most a notification, an autosave arming
   * or a file copy.
   */
  lemma ReadOnlyStepCalls(m: Model, op: Op)
    requires Valid(m) && !m.editable
    ensures (op.Undo? || op.Redo? || op.Revert? || op.BeginSave?) ==> Step(m, op) == Transition(m, [], Pass)
    ensures forall e :: e in Step(m, op).effects ==> e == DirtyChanged || e.AutoSaveArmed? || e.CopyFile?
  {
    if op.ChangeContent? {
      ChangeFiresOnFlip(Dirty(m), Step(m, op).next);
    }
  }

  /**
   * Over any sequence of calls, a read-only document never calls the plugin
   * host or the undo/redo service; it only notifies, arms autosave, and copies
   * files for `saveAs`.
   */
  lemma {:induction false} ReadOnlyMakesOnlyLocalCalls(m: Model, ops: seq<Op>)
    requires Valid(m) && !m.editable
    ensures forall e :: e in RunEffects(m, ops) ==> e == DirtyChanged || e.AutoSaveArmed? || e.CopyFile?
    decreases |ops|
  {
    if ops != [] {
      ReadOnlyStepCalls(m, ops[0]);
      RunUnfolds(m, ops);
      ReadOnlyMakesOnlyLocalCalls(Step(m, ops[0]).next, ops[1..]);
    }
  }

  // ---------------------------------------------------------------------------
  // Concrete histories

  /**
   * Push edit 1, save, push edit 2, undo: the document is dirty exactly
   * while the index differs from the save point. Then, from the second push,
   * two undos and a new edit 3 discard both earlier edits in one call.
   */
  lemma PushSaveUndoHistory()
    ensures var m0 := Initial(true, false, 0);
      var m1 := PushEditStep(m0, 1).next;
      var m2 := CompleteSaveStep(BeginSaveStep(m1).next, 0, true).next;
      var m3 := PushEditStep(m2, 2).next;
      var m4 := UndoStep(m3).next;
      var m5 := UndoStep(m4).next;
      var t6 := PushEditStep(m5, 3);
      && m1.currentEditIndex == 0 && Dirty(m1)
      && m2.savePoint == 0 && !Dirty(m2)
      && m3.currentEditIndex == 1 && m3.edits == [1, 2] && Dirty(m3)
      && m4.currentEditIndex == 0 && !Dirty(m4)
      && m5.currentEditIndex == -1
      && t6.next.edits == [3] && t6.next.currentEditIndex == 0
      && DisposeEdits([1, 2]) in t6.effects
  {
    var m0 := Initial(true, false, 0);
    var m1 := PushEditStep(m0, 1).next;
    assert m1.edits == [1];
    var m2 := CompleteSaveStep(BeginSaveStep(m1).next, 0, true).next;
    var m3 := PushEditStep(m2, 2).next;
    assert m3.edits == [1] + [2];
    var m5 := UndoStep(UndoStep(m3).next).next;
    assert Removed(m5.edits, m5.currentEditIndex) == [1, 2];
  }

  /** Edits 1 and 2 pushed on a new editable document, then saved. */
  lemma SaveTwoEdits()
    ensures var m2 := PushEditStep(PushEditStep(Initial(true, false, 0), 1).next, 2).next;
      CompleteSaveStep(BeginSaveStep(m2).next, 0, true).next == Model(true, [1, 2], 1, 1, false, None, 1, false, 0)
  {
    var m1 := PushEditStep(Initial(true, false, 0), 1).next;
    assert m1 == Model(true, [1], 0, -1, false, None, 0, false, 0);
    var m2 := PushEditStep(m1, 2).next;
    assert m2.edits == [1] + [2];
    assert m2 == Model(true, [1, 2], 1, -1, false, None, 0, false, 0);
  }

  /** From the saved history above: two undos and a new edit 3 cut both saved edits off. */
  lemma CutBothEdits()
    ensures var m4 := UndoStep(UndoStep(Model(true, [1, 2], 1, 1, false, None, 1, false, 0)).next).next;
      PushEditStep(m4, 3).next == Model(true, [3], 0, 1, false, None, 1, false, 0)
  {
    var m4 := UndoStep(UndoStep(Model(true, [1, 2], 1, 1, false, None, 1, false, 0)).next).next;
    assert m4 == Model(true, [1, 2], -1, 1, false, None, 1, false, 0);
    assert Kept(m4.edits, -1) == [];
  }

  /**
   * Why no upper bound on the indices is kept: edits 1 and 2 saved at index
   * 1, two undos and a new edit 3 leave the save point past the end of the
   * log; `revert` then moves the current index there too, and the next `undo`
   * reports an edit id that does not exist.
   */
  lemma SavePointCanLeaveTheLog()
    ensures var m0 := Initial(true, false, 0);
      var m2 := PushEditStep(PushEditStep(m0, 1).next, 2).next;
      var m3 := CompleteSaveStep(BeginSaveStep(m2).next, 0, true).next;
      var m5 := PushEditStep(UndoStep(UndoStep(m3).next).next, 3).next;
      var m6 := RevertStep(m5).next;
      var t7 := UndoStep(m6);
      && m5.edits == [3] && m5.savePoint == 1 && m5.currentEditIndex == 0
      && m6.edits == [3] && m6.currentEditIndex == 1
      && t7.effects == [DirtyChanged, UndoEdit(None, true)]
  {
    SaveTwoEdits();
    CutBothEdits();
    var m5 := Model(true, [3], 0, 1, false, None, 1, false, 0);
    assert Kept(m5.edits, 1) == [3];
    assert RevertStep(m5).next == m5.(currentEditIndex := 1);
  }

  /**
   * A consequence of the same history: with the save point left past the
   * log, a second new edit brings the current index back onto it and the
   * document reports clean, although the applied edits [3, 4] are not the
   * saved edits [1, 2].
   */
  lemma CleanWithUnsavedEdits()
    ensures var m0 := Initial(true, false, 0);
      var m2 := PushEditStep(PushEditStep(m0, 1).next, 2).next;
      var m3 := CompleteSaveStep(BeginSaveStep(m2).next, 0, true).next;
      var m6 := PushEditStep(PushEditStep(UndoStep(UndoStep(m3).next).next, 3).next, 4).next;
      && m3.edits == [1, 2] && m3.savePoint == 1
      && m6.edits == [3, 4] && m6.savePoint == 1 && m6.currentEditIndex == 1
      && !Dirty(m6)
  {
    SaveTwoEdits();
    CutBothEdits();
    var m5 := Model(true, [3], 0, 1, false, None, 1, false, 0);
    assert Kept(m5.edits, 0) == [3];
    assert PushEditStep(m5, 4).next.edits == [3] + [4];
  }

  /**
   * The common form of the same effect: after edits 1 and 2 are saved, one
   * undo and a new edit 3 give the log [1, 3] with the save point still on
   * its second slot, so the document reports clean although edit 3 was never
   * saved.
   */
  lemma OneUndoThenEditIsClean()
    ensures var m0 := Initial(true, false, 0);
      var m2 := PushEditStep(PushEditStep(m0, 1).next, 2).next;
      var m3 := CompleteSaveStep(BeginSaveStep(m2).next, 0, true).next;
      var m5 := PushEditStep(UndoStep(m3).next, 3).next;
      && m3.edits == [1, 2] && m3.savePoint == 1
      && m5.edits == [1, 3] && m5.savePoint == 1 && m5.currentEditIndex == 1
      && !Dirty(m5)
  {
    SaveTwoEdits();
    var m4 := UndoStep(Model(true, [1, 2], 1, 1, false, None, 1, false, 0)).next;
    assert m4 == Model(true, [1, 2], 0, 1, false, None, 1, false, 0);
    assert Kept(m4.edits, 0) == [1];
    assert PushEditStep(m4, 3).next.edits == [1] + [3];
  }

  /**
   * Undo then redo restores the model only with the index inside the log:
   * from the model `SavePointCanLeaveTheLog` reaches after `revert` (log [3],
   * index 1), undo moves to index 0 and redo then has nothing to replay.
   */
  lemma UndoThenRedoNeedsIndexInLog()
    ensures var m6 := RevertStep(Model(true, [3], 0, 1, false, None, 1, false, 0)).next;
      && m6 == Model(true, [3], 1, 1, false, None, 1, false, 0)
      && RedoStep(UndoStep(m6).next).next != m6
  {
    var m5 := Model(true, [3], 0, 1, false, None, 1, false, 0);
    assert Kept(m5.edits, 1) == [3];
  }
}
