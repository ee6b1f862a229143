/**
 * The two classes of custom-editors-main.ts that hold state:
 * `MainCustomEditorModel`, whose methods update its fields in place and are
 * each proved to do exactly what the matching step function of
 * `CustomDocument` says, and the provider map of `CustomEditorsMainImpl`.
 *
 * Calls leaving the class (the plugin-host proxy, the undo/redo service,
 * the file service, the dirty-changed emitter and the autosave timer) are
 * appended to a ghost log `calls`.
 */
module CustomEditorsMain {
  import opened Wrappers
  import opened CustomDocument

  class MainCustomEditorModel {
    const editable: bool
    var edits: seq<EditId>
    var currentEditIndex: int
    var savePoint: int
    var isDirtyFromContentChange: bool
    var ongoingSave: Option<SaveToken>
    /** The identity the next save attempt receives. */
    var nextToken: SaveToken
    var autoSave: bool
    var autoSaveDelay: int
    ghost var calls: seq<Effect>

    /** The fields as a `CustomDocument.Model` value. */
    function Snapshot(): (m: Model)
      reads this
    {
      Model(editable, edits, currentEditIndex, savePoint, isDirtyFromContentChange,
            ongoingSave, nextToken, autoSave, autoSaveDelay)
    }

    predicate Valid()
      reads this
    {
      CustomDocument.Valid(Snapshot())
    }

    /**
     * The model `create` builds once the plugin host has answered
     * `$createCustomDocument` with `editable`; the autosave settings are the
     * preference values read in the constructor.
     */
    constructor (editable: bool, autoSave: bool, autoSaveDelay: int)
      ensures Valid() && !Dirty()
      ensures Snapshot() == Initial(editable, autoSave, autoSaveDelay)
      ensures calls == []
    {
      this.editable := editable;
      edits := [];
      currentEditIndex := -1;
      savePoint := -1;
      isDirtyFromContentChange := false;
      ongoingSave := None;
      nextToken := 0;
      this.autoSave := autoSave;
      this.autoSaveDelay := autoSaveDelay;
      calls := [];
    }

    /** The `dirty` getter. */
    function Dirty(): (d: bool)
      reads this
      ensures d <==> isDirtyFromContentChange || (|edits| > 0 && savePoint != currentEditIndex)
    {
      CustomDocument.Dirty(Snapshot())
    }

    /** The `readonly` getter. */
    function Readonly(): (readonly: bool)
      reads this
    {
      CustomDocument.Readonly(Snapshot())
    }

    /** The part of `change` that follows its mutation: notify on a flip, then arm autosave. */
    method Changed(wasDirty: bool)
      modifies this`calls
      ensures calls == old(calls) + ChangeEffects(wasDirty, Snapshot())
    {
      if Dirty() != wasDirty {
        calls := calls + [DirtyChanged];
      }
      if autoSave {
        calls := calls + [AutoSaveArmed(autoSaveDelay)];
      }
    }

    /**
     * `spliceEdits`: `Array.prototype.splice(start, toRemove[, edit])` with
     * the source's arguments, including its clamping of a start past the end
     * and of a delete count one larger than the tail.
     */
    method SpliceEdits(editToInsert: Option<EditId>)
      requires -1 <= currentEditIndex
      modifies this`edits, this`calls
      ensures edits == Kept(old(edits), currentEditIndex)
                       + (if editToInsert.Some? then [editToInsert.value] else [])
      ensures calls == old(calls) + DisposeEffects(Removed(old(edits), currentEditIndex))
    {
      var start := currentEditIndex + 1;
      var toRemove := |edits| - currentEditIndex;
      var from := if start <= |edits| then start else |edits|;
      var count := if toRemove < 0 then 0
                   else if toRemove <= |edits| - from then toRemove
                   else |edits| - from;
      var removedEdits := edits[from..from + count];
      assert from == CutPoint(edits, currentEditIndex) && from + count == |edits|;
      assert removedEdits == Removed(edits, currentEditIndex);
      var inserted := if editToInsert.Some? then [editToInsert.value] else [];
      edits := edits[..from] + inserted + edits[from + count..];
      if |removedEdits| > 0 {
        calls := calls + [DisposeEdits(removedEdits)];
      }
    }

    method ChangeContent()
      requires Valid()
      modifies this
      ensures Valid() && Dirty()
      ensures var t := ChangeContentStep(old(Snapshot()));
        Snapshot() == t.next && calls == old(calls) + t.effects
    {
      var wasDirty := Dirty();
      isDirtyFromContentChange := true;
      Changed(wasDirty);
    }

    method PushEdit(editId: EditId, editLabel: Option<string>) returns (r: Outcome<DocumentError>)
      requires Valid()
      modifies this
      ensures Valid()
      ensures var t := PushEditStep(old(Snapshot()), editId);
        Snapshot() == t.next && calls == old(calls) + t.effects && r == t.outcome
      ensures editable ==> |edits| > 0 && currentEditIndex == |edits| - 1 && edits[|edits| - 1] == editId
      ensures !editable ==> r == Fail(NotEditable)
    {
      if !editable {
        return Fail(NotEditable);
      }
      ghost var m := Snapshot();
      ghost var t := PushEditStep(m, editId);
      ghost var d := DisposeEffects(Removed(m.edits, m.currentEditIndex));
      var wasDirty := Dirty();
      SpliceEdits(Some(editId));
      assert calls == old(calls) + d;
      currentEditIndex := |edits| - 1;
      assert Snapshot() == t.next;
      Changed(wasDirty);
      ghost var c := ChangeEffects(wasDirty, t.next);
      calls := calls + [PushUndoElement];
      AppendAssoc(old(calls), d, c);
      AppendAssoc(old(calls), d + c, [PushUndoElement]);
      r := Pass;
    }

    /** The undo callback pushed with each edit. */
    method Undo()
      requires Valid()
      modifies this
      ensures Valid()
      ensures var t := UndoStep(old(Snapshot()));
        Snapshot() == t.next && calls == old(calls) + t.effects
    {
      if !editable {
        return;
      }
      if currentEditIndex < 0 {
        return;
      }
      var undoneEdit := EditAt(edits, currentEditIndex);
      var wasDirty := Dirty();
      currentEditIndex := currentEditIndex - 1;
      Changed(wasDirty);
      calls := calls + [UndoEdit(undoneEdit, Dirty())];
    }

    /** The redo callback pushed with each edit. */
    method Redo()
      requires Valid()
      modifies this
      ensures Valid()
      ensures var t := RedoStep(old(Snapshot()));
        Snapshot() == t.next && calls == old(calls) + t.effects
    {
      if !editable {
        return;
      }
      if currentEditIndex >= |edits| - 1 {
        return;
      }
      var redoneEdit := edits[currentEditIndex + 1];
      var wasDirty := Dirty();
      currentEditIndex := currentEditIndex + 1;
      Changed(wasDirty);
      calls := calls + [RedoEdit(redoneEdit, Dirty())];
    }

    method Revert()
      requires Valid()
      modifies this
      ensures Valid()
      ensures var t := RevertStep(old(Snapshot()));
        Snapshot() == t.next && calls == old(calls) + t.effects
      ensures editable ==> !Dirty()
    {
      if !editable {
        return;
      }
      if currentEditIndex == savePoint && !isDirtyFromContentChange {
        return;
      }
      ghost var t := RevertStep(Snapshot());
      ghost var d := DisposeEffects(Removed(edits, savePoint));
      calls := calls + [RevertDocument];
      var wasDirty := Dirty();
      isDirtyFromContentChange := false;
      currentEditIndex := savePoint;
      SpliceEdits(None);
      assert Snapshot() == t.next;
      Changed(wasDirty);
      AppendAssoc(old(calls), [RevertDocument], d);
      AppendAssoc(old(calls), [RevertDocument] + d, ChangeEffects(wasDirty, t.next));
    }

    /**
     * `save()` up to its `await`: returns the new save's token, or `None` on
     * a read-only document, where `save` returns at once.
     */
    method BeginSave() returns (token: Option<SaveToken>)
      requires Valid()
      modifies this
      ensures Valid()
      ensures var t := BeginSaveStep(old(Snapshot()));
        Snapshot() == t.next && calls == old(calls) + t.effects
      ensures token == if editable then Some(old(nextToken)) else None
      ensures token.Some? ==> ongoingSave == token && old(ongoingSave) != token
    {
      if !editable {
        return None;
      }
      var cancelable := nextToken;
      nextToken := nextToken + 1;
      calls := calls + [SaveDocument(cancelable)];
      if ongoingSave.Some? {
        calls := calls + [CancelSave(ongoingSave.value)];
      }
      ongoingSave := Some(cancelable);
      token := Some(cancelable);
    }

    /**
     * `save()` after its `await`: `ok` says whether the plugin host's save
     * resolved. The `finally` part runs on both paths.
     */
    method CompleteSave(token: SaveToken, ok: bool) returns (r: Outcome<DocumentError>)
      requires Valid()
      modifies this
      ensures Valid()
      ensures var t := CompleteSaveStep(old(Snapshot()), token, ok);
        Snapshot() == t.next && calls == old(calls) + t.effects && r == t.outcome
      ensures old(ongoingSave) != Some(token) ==> Snapshot() == old(Snapshot()) && calls == old(calls)
    {
      if ok {
        if ongoingSave == Some(token) {
          var wasDirty := Dirty();
          isDirtyFromContentChange := false;
          savePoint := currentEditIndex;
          Changed(wasDirty);
        }
        r := Pass;
      } else {
        r := Fail(SaveFailed);
      }
      if ongoingSave == Some(token) {
        ongoingSave := None;
      }
    }

    /** `saveAs(source, target, options)` once its awaited call has settled with `ok`. */
    method SaveAs(source: Uri, target: Uri, overwrite: bool, ok: bool) returns (r: Outcome<DocumentError>)
      requires Valid()
      modifies this
      ensures Valid()
      ensures var t := SaveAsStep(old(Snapshot()), source, target, overwrite, ok);
        Snapshot() == t.next && calls == old(calls) + t.effects && r == t.outcome
      ensures editable && ok ==> savePoint == currentEditIndex
      ensures isDirtyFromContentChange == old(isDirtyFromContentChange)
    {
      if editable {
        calls := calls + [SaveDocumentAs(target)];
        if !ok {
          return Fail(SaveAsFailed);
        }
        var wasDirty := Dirty();
        savePoint := currentEditIndex;
        Changed(wasDirty);
        r := Pass;
      } else {
        calls := calls + [CopyFile(source, target, false)];
        r := if ok then Pass else Fail(CopyFailed);
      }
    }

    method Dispose()
      modifies this`calls
      ensures calls == old(calls) + DisposeCalls(Snapshot())
    {
      if editable {
        calls := calls + [RemoveUndoElements];
      }
      calls := calls + [DisposeDocument];
    }
  }

  // ---------------------------------------------------------------------------
  // CustomEditorsMainImpl: the provider map

  datatype ModelType = Custom | Text

  /**
   * What a registration remembers: the model type its resolver captures.
   * The source keeps the disposable that undoes it.
   */
  datatype ProviderRegistration = ProviderRegistration(modelType: ModelType)

  datatype MainError =
    | AlreadyRegistered(viewType: string)
    | NotRegistered(viewType: string)
    | ModelNotFound
    | DocumentFailed(error: DocumentError)

  /** Calls `CustomEditorsMainImpl` makes on the editor registry and the model service. */
  datatype MainEffect =
    | RegisterResolver(viewType: string)          // customEditorRegistry.registerResolver
    | DisposeResolver(viewType: string)           // dispose() of the registration's disposables
    | DisposeAllModelsForView(viewType: string)   // customEditorService.models.disposeAllModelsForView

  function DisposeResolvers(order: seq<string>): (effects: seq<MainEffect>)
    ensures |effects| == |order|
    ensures forall i :: 0 <= i < |order| ==> effects[i] == DisposeResolver(order[i])
  {
    if order == [] then [] else [DisposeResolver(order[0])] + DisposeResolvers(order[1..])
  }

  predicate Distinct(s: seq<string>) {
    forall i, j :: 0 <= i < j < |s| ==> s[i] != s[j]
  }

  function AsOutcome(r: Outcome<DocumentError>): (o: Outcome<MainError>) {
    if r.Pass? then Pass else Fail(DocumentFailed(r.error))
  }

  class CustomEditorsMainImpl {
    var editorProviders: map<string, ProviderRegistration>
    ghost var calls: seq<MainEffect>

    constructor ()
      ensures editorProviders == map[] && calls == []
    {
      editorProviders := map[];
      calls := [];
    }

    /**
     * Disposes every registration, each exactly once (in some order: the
     * map's insertion order is not modelled), then empties the map.
     */
    method Dispose() returns (ghost order: seq<string>)
      modifies this
      ensures editorProviders == map[]
      ensures calls == old(calls) + DisposeResolvers(order)
      ensures Distinct(order)
      ensures forall v :: v in order <==> v in old(editorProviders)
    {
      var remaining := editorProviders.Keys;
      order := [];
      while remaining != {}
        invariant editorProviders == old(editorProviders)
        invariant remaining <= old(editorProviders).Keys
        invariant calls == old(calls) + DisposeResolvers(order)
        invariant Distinct(order)
        invariant forall v :: v in order ==> v in old(editorProviders) && v !in remaining
        invariant forall v :: v in old(editorProviders) ==> v in remaining || v in order
        decreases remaining
      {
        var viewType :| viewType in remaining;
        DisposeResolversAppend(order, viewType);
        calls := calls + [DisposeResolver(viewType)];
        order := order + [viewType];
        remaining := remaining - {viewType};
      }
      editorProviders := map[];
    }

    /**
     * `registerEditorProvider`: refuses a view type that already has a
     * provider; otherwise registers a resolver for it and records it.
     * `supportsMultipleEditorsPerDocument` is accepted and never read.
     */
    method RegisterEditorProvider(modelType: ModelType, viewType: string, supportsMultipleEditorsPerDocument: bool)
      returns (r: Outcome<MainError>)
      modifies this
      ensures old(viewType in editorProviders) ==>
                && r == Fail(AlreadyRegistered(viewType))
                && editorProviders == old(editorProviders) && calls == old(calls)
      ensures old(viewType !in editorProviders) ==>
                && r == Pass
                && editorProviders == old(editorProviders)[viewType := ProviderRegistration(modelType)]
                && calls == old(calls) + [RegisterResolver(viewType)]
    {
      if viewType in editorProviders {
        return Fail(AlreadyRegistered(viewType));
      }
      calls := calls + [RegisterResolver(viewType)];
      editorProviders := editorProviders[viewType := ProviderRegistration(modelType)];
      r := Pass;
    }

    /**
     * `$registerTextEditorProvider`: the promise of `registerEditorProvider`
     * is dropped, so a duplicate registration does not reach the caller.
     */
    method RegisterTextEditorProvider(viewType: string)
      modifies this
      ensures viewType in editorProviders
      ensures old(viewType in editorProviders) ==> editorProviders == old(editorProviders) && calls == old(calls)
      ensures old(viewType !in editorProviders) ==>
                && editorProviders == old(editorProviders)[viewType := ProviderRegistration(Text)]
                && calls == old(calls) + [RegisterResolver(viewType)]
    {
      var _ := RegisterEditorProvider(Text, viewType, true);
    }

    /** `$registerCustomEditorProvider`, dropping the result in the same way. */
    method RegisterCustomEditorProvider(viewType: string, supportsMultipleEditorsPerDocument: bool)
      modifies this
      ensures viewType in editorProviders
      ensures old(viewType in editorProviders) ==> editorProviders == old(editorProviders) && calls == old(calls)
      ensures old(viewType !in editorProviders) ==>
                && editorProviders == old(editorProviders)[viewType := ProviderRegistration(Custom)]
                && calls == old(calls) + [RegisterResolver(viewType)]
    {
      var _ := RegisterEditorProvider(Custom, viewType, supportsMultipleEditorsPerDocument);
    }

    /**
     * `$unregisterEditorProvider`: refuses an unknown view type; otherwise
     * disposes its registration, removes exactly that key and disposes every
     * model opened for it.
     */
    method UnregisterEditorProvider(viewType: string) returns (r: Outcome<MainError>)
      modifies this
      ensures old(viewType !in editorProviders) ==>
                && r == Fail(NotRegistered(viewType))
                && editorProviders == old(editorProviders) && calls == old(calls)
      ensures old(viewType in editorProviders) ==>
                && r == Pass
                && editorProviders == old(editorProviders) - {viewType}
                && calls == old(calls) + [DisposeResolver(viewType), DisposeAllModelsForView(viewType)]
    {
      if viewType !in editorProviders {
        return Fail(NotRegistered(viewType));
      }
      calls := calls + [DisposeResolver(viewType)];
      editorProviders := editorProviders - {viewType};
      calls := calls + [DisposeAllModelsForView(viewType)];
      r := Pass;
    }

    /**
     * `$onDidEdit`: `model` is what the model service returned for the
     * document, `null` when it has none or only a text-backed one.
     */
    method OnDidEdit(model: MainCustomEditorModel?, editId: EditId, editLabel: Option<string>)
      returns (r: Outcome<MainError>)
      requires model != null ==> model.Valid()
      modifies model
      ensures model == null ==> r == Fail(ModelNotFound)
      ensures model != null ==>
                && model.Valid()
                && var t := PushEditStep(old(model.Snapshot()), editId);
                && model.Snapshot() == t.next
                && model.calls == old(model.calls) + t.effects
                && r == AsOutcome(t.outcome)
    {
      if model == null {
        return Fail(ModelNotFound);
      }
      var pushed := model.PushEdit(editId, editLabel);
      r := AsOutcome(pushed);
    }

    /** `$onContentChange`, looked up in the same way. */
    method OnContentChange(model: MainCustomEditorModel?) returns (r: Outcome<MainError>)
      requires model != null ==> model.Valid()
      modifies model
      ensures model == null ==> r == Fail(ModelNotFound)
      ensures model != null ==>
                && r == Pass
                && model.Valid() && model.Dirty()
                && var t := ChangeContentStep(old(model.Snapshot()));
                && model.Snapshot() == t.next
                && model.calls == old(model.calls) + t.effects
    {
      if model == null {
        return Fail(ModelNotFound);
      }
      model.ChangeContent();
      r := Pass;
    }
  }

  /** Appending to a log piece by piece is appending the pieces at once. */
  lemma AppendAssoc<T>(a: seq<T>, b: seq<T>, c: seq<T>)
    ensures a + (b + c) == a + b + c
  {
  }

  lemma DisposeResolversAppend(order: seq<string>, viewType: string)
    ensures DisposeResolvers(order + [viewType]) == DisposeResolvers(order) + [DisposeResolver(viewType)]
  {
  }
}
