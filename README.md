# Custom documents: host-side edit log, dirty state and save protocol

This project models the host side of Theia's custom editors, from
`packages/plugin-ext/src/main/browser/custom-editors/custom-editors-main.ts`.

A custom document is a resource whose content and edit semantics belong to a
plugin running in the plugin host. The main process keeps only these facts:

- an opaque log of edit ids (`edits`);
- the index of the applied edit (`currentEditIndex`) and the index believed
  saved (`savePoint`), both starting at -1;
- a flag for content changes made outside the log (`isDirtyFromContentChange`);
- the token of the save in flight (`ongoingSave`);
- whether the document is editable, fixed at creation.

From these it derives `dirty`. It orchestrates push/undo/redo/revert/save/saveAs
by calling the plugin host, the undo/redo service and the file service.
`CustomEditorsMainImpl` also keeps a map from view type to registered provider.

Files:

- `wrappers.dfy`: `Option` and `Outcome`.
- `custom_document.dfy` (module `CustomDocument`): the document model as a value.
  - `Model` holds every field of `MainCustomEditorModel`.
  - `Effect` lists what an operation does outside the model, in order: plugin-host
    calls, undo/redo-service calls, file copies, the dirty-changed notification and
    the arming of an autosave timer.
  - Each operation is a step function returning the next model, its effects and
    whether it threw or rejected. `Step` and `Run` replay a sequence of calls.
- `custom_document_properties.dfy`: what the operations promise, per call and
  across any sequence of calls.
- `custom_editors_main.dfy` (module `CustomEditorsMain`): the imperative classes.
  - `MainCustomEditorModel` has the source's fields, and each method updates them
    step by step. Each method is proved to end in the state, and to make the calls,
    that its step function gives. Outgoing calls go to a ghost log `calls`.
  - `CustomEditorsMainImpl` keeps the provider map in a `map` field.
- `deferred_release.dfy`: the widget-dispose callback. It releases a dirty
  model's reference only once the model becomes clean.

`save()` suspends at its `await`, so it is split in two. `BeginSave` runs up to
the `await`: it requests the save under a fresh token, then cancels the previous
save and makes the new token current. `CompleteSave(token, ok)` runs after the
`await`, with `ok` saying whether the plugin host's save resolved. This lets the
properties talk about interleaved saves. Tokens are drawn from a counter
(`nextToken`), which stands for the identity of a new `CancellationTokenSource`.

Where the code behaves differently from what one might expect, the model
follows the code:

- `savePoint` is not moved when a new edit cuts off the edit it names. The slot
  it points at is then either filled by a different edit or left empty.
  - Filled: the document reports clean although the edit there was never saved.
    With edits 1 and 2 saved, one undo and a new edit 3 give the log `[1, 3]`
    with index and save point both 1 (`OneUndoThenEditIsClean`).
    `CleanWithUnsavedEdits` shows the same with applied edits `[3, 4]` against
    saved edits `[1, 2]`.
  - Empty: `savePoint` points past the end of the log. `revert` then copies it
    into `currentEditIndex`. The next `undo` reads `edits[currentEditIndex]`,
    which is `undefined`, and sends that to the plugin host
    (`SavePointCanLeaveTheLog`). So no upper bound holds on either index.
  - From that model, undo then redo does not restore the model. `UndoThenRedoRestores`
    therefore requires the index to be inside the log (`UndoThenRedoNeedsIndexInLog`).
- `changeContent` does not check `editable`. A read-only document can become
  dirty, and since `save` and `revert` do nothing on it, it stays dirty
  (`ReadOnlyKeepsEditLog`).
- `saveAs` moves the save point but keeps the content-change flag.
- A read-only `saveAs` ignores the copy options its caller passes and always
  copies with `overwrite: false` (lines 457 and 467). The save-as command asks
  the user to confirm overwriting an existing file and passes `{ overwrite }`
  (packages/plugin-ext/src/main/browser/custom-editors/custom-editor-contribution.ts:81-92). A confirmed overwrite is therefore
  still attempted as a copy that does not overwrite, and the command only logs
  its rejection. `SaveAsMovesSavePoint` states that the copy never overwrites
  and that the option makes no difference.
- Every `change` arms a new autosave timer. Earlier pending timers are not
  cancelled.
- `registerEditorProvider` is `async`, and `$registerTextEditorProvider` and
  `$registerCustomEditorProvider` drop its promise. So a duplicate
  registration's error never reaches their caller. Only `RegisterEditorProvider`
  returns it.

## Model

| member | source | states |
|---|---|---|
| `CustomDocument.Initial` | packages/plugin-ext/src/main/browser/custom-editors/custom-editors-main.ts:247-251 | A new document has no edits, both indices at -1, the content flag clear and no save in flight. It satisfies the invariant and is clean |
| `CustomDocument.PushEditStep` | packages/plugin-ext/src/main/browser/custom-editors/custom-editors-main.ts:331-346 | On a read-only document, throws and changes nothing. Otherwise the new edit becomes the last one and the current one. Keeps the invariant and the fixed settings |
| `CustomDocument.ChangeContentStep` | packages/plugin-ext/src/main/browser/custom-editors/custom-editors-main.ts:325-329 | Only the content flag changes, to set, editable or not, so the document is dirty afterwards |
| `CustomDocument.UndoStep` | packages/plugin-ext/src/main/browser/custom-editors/custom-editors-main.ts:348-363 | Undo never fails and keeps the invariant |
| `CustomDocument.RedoStep` | packages/plugin-ext/src/main/browser/custom-editors/custom-editors-main.ts:365-380 | Redo never fails and keeps the invariant |
| `CustomDocument.RevertStep` | packages/plugin-ext/src/main/browser/custom-editors/custom-editors-main.ts:411-427 | Revert never fails and keeps the invariant |
| `CustomDocument.BeginSaveStep` | packages/plugin-ext/src/main/browser/custom-editors/custom-editors-main.ts:429-439 | Read-only: no change, no call. Editable: only the current save and the token counter change; the current save takes the fresh token, which differs from the previous one. The calls are exactly `$onSave` under the new token, then the cancel of the save it supersedes, when one was in flight |
| `CustomDocument.CompleteSaveStep` | packages/plugin-ext/src/main/browser/custom-editors/custom-editors-main.ts:441-455 | A completed save passes its rejection on and otherwise succeeds; it keeps the invariant |
| `CustomDocument.SaveAsStep` | packages/plugin-ext/src/main/browser/custom-editors/custom-editors-main.ts:457-469 | saveAs keeps the invariant and the fixed settings. It accepts the caller's overwrite option. It succeeds when the awaited call resolves. Otherwise it fails with the save-as rejection on an editable document, or the copy rejection on a read-only one |
| `CustomDocument.DisposeCalls` | packages/plugin-ext/src/main/browser/custom-editors/custom-editors-main.ts:314-319 | dispose always releases the document in the plugin host. It clears the undo/redo entries exactly when the document is editable |
| `CustomDocument.Step` | packages/plugin-ext/src/main/browser/custom-editors/custom-editors-main.ts:325-469 | Every operation keeps the invariant: both indices >= -1, the current save token was issued, and a read-only document has no save in flight. None changes `editable` or the autosave settings |
| `CustomDocument.Run` | packages/plugin-ext/src/main/browser/custom-editors/custom-editors-main.ts:325-469 | Any sequence of calls keeps the invariant and the fixed settings |
| `CustomDocumentProperties.ChangeFiresOnFlip` | packages/plugin-ext/src/main/browser/custom-editors/custom-editors-main.ts:395-409 | `change` fires the notification once if `dirty` flipped and never otherwise. Its other effect is arming autosave |
| `CustomDocumentProperties.PushEditFiresIffFlip` | packages/plugin-ext/src/main/browser/custom-editors/custom-editors-main.ts:331-346 | pushEdit notifies exactly when it flips `dirty` |
| `CustomDocumentProperties.ChangeContentFiresIffFlip` | packages/plugin-ext/src/main/browser/custom-editors/custom-editors-main.ts:325-329 | changeContent notifies exactly when it flips `dirty` |
| `CustomDocumentProperties.UndoFiresIffFlip` | packages/plugin-ext/src/main/browser/custom-editors/custom-editors-main.ts:348-363 | undo notifies exactly when it flips `dirty` |
| `CustomDocumentProperties.RedoFiresIffFlip` | packages/plugin-ext/src/main/browser/custom-editors/custom-editors-main.ts:365-380 | redo notifies exactly when it flips `dirty` |
| `CustomDocumentProperties.RevertFiresIffFlip` | packages/plugin-ext/src/main/browser/custom-editors/custom-editors-main.ts:411-427 | revert notifies exactly when it flips `dirty` |
| `CustomDocumentProperties.BeginSaveFiresIffFlip` | packages/plugin-ext/src/main/browser/custom-editors/custom-editors-main.ts:429-439 | Starting a save never notifies and never changes `dirty` |
| `CustomDocumentProperties.CompleteSaveFiresIffFlip` | packages/plugin-ext/src/main/browser/custom-editors/custom-editors-main.ts:441-455 | A completed save notifies exactly when it flips `dirty` |
| `CustomDocumentProperties.SaveAsFiresIffFlip` | packages/plugin-ext/src/main/browser/custom-editors/custom-editors-main.ts:457-469 | saveAs notifies exactly when it flips `dirty` |
| `CustomDocumentProperties.StepFiresIffFlip` | packages/plugin-ext/src/main/browser/custom-editors/custom-editors-main.ts:395-401 | Every operation fires the dirty-changed notification exactly once if `dirty` differs afterwards, and never otherwise |
| `CustomDocumentProperties.NotificationsTrackDirty` | packages/plugin-ext/src/main/browser/custom-editors/custom-editors-main.ts:395-401 | Over any sequence of calls, the number of notifications is odd exactly when `dirty` ends different from where it started. A listener that toggles on each notification stays in step |
| `CustomDocumentProperties.SpliceSplits` | packages/plugin-ext/src/main/browser/custom-editors/custom-editors-main.ts:382-393 | Cutting after an index splits the log into the kept prefix (at most index+1 edits) and the redo branch. The branch is empty exactly when the index is at or past the last edit, and it holds the edits after the index, in order |
| `CustomDocumentProperties.PushEditCutsRedoBranch` | packages/plugin-ext/src/main/browser/custom-editors/custom-editors-main.ts:331-346 | Editable: the log becomes the kept prefix plus the new edit, which is current. The save point, flag and save token do not change. The redo branch goes out in a single `$disposeEdits` call, made only when it is non-empty. Exactly one undo element is pushed. Read-only: throws, no change, no calls |
| `CustomDocumentProperties.UndoMovesBack` | packages/plugin-ext/src/main/browser/custom-editors/custom-editors-main.ts:348-363 | Undo acts iff editable and index >= 0. It then decrements the index and finally reports the edit at the old index, with the new `dirty`. The log, save point, flag, current save and token counter are never touched. When it does not act, it makes no call |
| `CustomDocumentProperties.RedoMovesForward` | packages/plugin-ext/src/main/browser/custom-editors/custom-editors-main.ts:365-380 | Redo acts iff editable and index < length-1. It then increments the index and reports `edits[old+1]`. The log, save point, flag, current save and token counter are never touched |
| `CustomDocumentProperties.UndoThenRedoRestores` | packages/plugin-ext/src/main/browser/custom-editors/custom-editors-main.ts:348-380 | With the index inside the log, undo then redo restores the whole model, so the index and `dirty` too. Redo reports the same edit undo reported |
| `CustomDocumentProperties.RedoThenUndoRestores` | packages/plugin-ext/src/main/browser/custom-editors/custom-editors-main.ts:348-380 | Redo then undo restores the whole model |
| `CustomDocumentProperties.RevertReturnsToSavePoint` | packages/plugin-ext/src/main/browser/custom-editors/custom-editors-main.ts:411-427 | After revert an editable document is clean. Read-only, or at the save point with no content change pending: no change and no call. Otherwise it first asks the plugin host to revert, sets the index to the save point and drops every edit after it, so redo is a no-op. The dropped edits go out in a single `$disposeEdits` call, made only when there are some. The current save and the token counter never change |
| `CustomDocumentProperties.SupersededSaveIsInert` | packages/plugin-ext/src/main/browser/custom-editors/custom-editors-main.ts:441-454 | A save whose token is no longer current changes no state and makes no call, whether it resolved or rejected |
| `CustomDocumentProperties.CurrentSaveCommits` | packages/plugin-ext/src/main/browser/custom-editors/custom-editors-main.ts:441-454 | The current save, on success, sets the save point to the current index and clears the flag, so the document is clean. On failure it changes nothing but the marker. Either way it resets the marker and leaves the log alone |
| `CustomDocumentProperties.LastSaveWins` | packages/plugin-ext/src/main/browser/custom-editors/custom-editors-main.ts:429-455 | On an editable document, with or without a save already in flight, take two saves started in a row. The second requests its save before cancelling the first. The first's completion, however it ends, changes nothing. The second's success commits and clears the marker |
| `CustomDocumentProperties.StepIssuesOnlyFreshTokens` | packages/plugin-ext/src/main/browser/custom-editors/custom-editors-main.ts:429-455 | No call lowers the token counter. After a call, the current save is the previous one, none, or the one just issued under the old counter. Only a new save installs a different current save. Only the current save's own completion clears it |
| `CustomDocumentProperties.SupersededStaysSuperseded` | packages/plugin-ext/src/main/browser/custom-editors/custom-editors-main.ts:429-455 | A save that is no longer current never becomes current again, whatever calls follow. With `SupersededSaveIsInert`, its completion stays inert under any interleaving |
| `CustomDocumentProperties.CurrentStaysCurrent` | packages/plugin-ext/src/main/browser/custom-editors/custom-editors-main.ts:429-455 | The current save stays current through any calls other than a new save or its own completion. So a save started before undo, redo, revert, edits or saveAs still commits when it resolves, and the last save started is the one that commits |
| `CustomDocumentProperties.ReadOnlySaveDoesNothing` | packages/plugin-ext/src/main/browser/custom-editors/custom-editors-main.ts:429-432 | save on a read-only document changes nothing and makes no call |
| `CustomDocumentProperties.SaveAsMovesSavePoint` | packages/plugin-ext/src/main/browser/custom-editors/custom-editors-main.ts:457-469 | Editable and successful: only the save point moves, to the current index. `dirty` then equals the content-change flag. Editable and failed: no change. Read-only: only a file copy with `overwrite` false, and no state change. The caller's overwrite option makes no difference to the result |
| `CustomDocumentProperties.ReadOnlyKeepsEditLog` | packages/plugin-ext/src/main/browser/custom-editors/custom-editors-main.ts:325-455 | For a read-only document, no sequence of calls changes the log, the indices or the save state. The flag ends set iff it was set or `changeContent` was called |
| `CustomDocumentProperties.ReadOnlyStepCalls` | packages/plugin-ext/src/main/browser/custom-editors/custom-editors-main.ts:321-469 | On a read-only document, undo, redo, revert and save change nothing and make no call. Any call makes at most a notification, an autosave arming or a file copy |
| `CustomDocumentProperties.ReadOnlyMakesOnlyLocalCalls` | packages/plugin-ext/src/main/browser/custom-editors/custom-editors-main.ts:321-469 | Over any sequence of calls, a read-only document never calls the plugin host or the undo/redo service |
| `CustomDocumentProperties.PushEditEndsAtLastEdit` | packages/plugin-ext/src/main/browser/custom-editors/custom-editors-main.ts:336-339 | After any history ending in pushEdit, the current index is the last one and holds the pushed id |
| `CustomDocumentProperties.PushSaveUndoHistory` | packages/plugin-ext/src/main/browser/custom-editors/custom-editors-main.ts:331-455 | Push, save, push, undo gives the expected indices and `dirty` values. Two undos then a push leave `[3]` and dispose `[1, 2]` |
| `CustomDocumentProperties.SavePointCanLeaveTheLog` | packages/plugin-ext/src/main/browser/custom-editors/custom-editors-main.ts:348-427 | A concrete history leaves the save point, then the index, past the log. The following undo reports an `undefined` edit |
| `CustomDocumentProperties.CleanWithUnsavedEdits` | packages/plugin-ext/src/main/browser/custom-editors/custom-editors-main.ts:300-393 | A concrete history ends clean with applied edits `[3, 4]` while the saved edits were `[1, 2]` |
| `CustomDocumentProperties.OneUndoThenEditIsClean` | packages/plugin-ext/src/main/browser/custom-editors/custom-editors-main.ts:300-393 | After edits 1 and 2 are saved, one undo and a new edit 3 give the log `[1, 3]` with index and save point both 1. The document reports clean although edit 3 was never saved |
| `CustomDocumentProperties.UndoThenRedoNeedsIndexInLog` | packages/plugin-ext/src/main/browser/custom-editors/custom-editors-main.ts:348-427 | From the model reached after revert in `SavePointCanLeaveTheLog` (log `[3]`, index 1), undo then redo does not restore the model. So the in-log precondition of `UndoThenRedoRestores` is needed |
| `CustomEditorsMain.MainCustomEditorModel.constructor` | packages/plugin-ext/src/main/browser/custom-editors/custom-editors-main.ts:259-294 | The created model is the initial one for the `editable` answer of the plugin host, and it is clean |
| `CustomEditorsMain.MainCustomEditorModel.Changed` | packages/plugin-ext/src/main/browser/custom-editors/custom-editors-main.ts:395-409 | Appends the notification exactly when `dirty` differs from the value before the mutation. Then appends the autosave arming when autosave is on |
| `CustomEditorsMain.MainCustomEditorModel.SpliceEdits` | packages/plugin-ext/src/main/browser/custom-editors/custom-editors-main.ts:382-393 | Splices with the source's clamped start and over-long count, and the result is "drop everything after the index, then append". Reports the dropped edits once, only if any |
| `CustomEditorsMain.MainCustomEditorModel.ChangeContent` | packages/plugin-ext/src/main/browser/custom-editors/custom-editors-main.ts:325-329 | New fields and calls are those of `ChangeContentStep`. The document is dirty |
| `CustomEditorsMain.MainCustomEditorModel.PushEdit` | packages/plugin-ext/src/main/browser/custom-editors/custom-editors-main.ts:331-346 | New fields, calls and outcome are those of `PushEditStep`. On an editable document, the new edit is last and current. On a read-only one, it throws |
| `CustomEditorsMain.MainCustomEditorModel.Undo` | packages/plugin-ext/src/main/browser/custom-editors/custom-editors-main.ts:348-363 | New fields and calls are those of `UndoStep` |
| `CustomEditorsMain.MainCustomEditorModel.Redo` | packages/plugin-ext/src/main/browser/custom-editors/custom-editors-main.ts:365-380 | New fields and calls are those of `RedoStep` |
| `CustomEditorsMain.MainCustomEditorModel.Revert` | packages/plugin-ext/src/main/browser/custom-editors/custom-editors-main.ts:411-427 | New fields and calls are those of `RevertStep`. An editable document is clean afterwards |
| `CustomEditorsMain.MainCustomEditorModel.BeginSave` | packages/plugin-ext/src/main/browser/custom-editors/custom-editors-main.ts:429-439 | New fields and calls are those of `BeginSaveStep`. Editable: returns the fresh token, now current and different from the previous one. Read-only: returns none |
| `CustomEditorsMain.MainCustomEditorModel.CompleteSave` | packages/plugin-ext/src/main/browser/custom-editors/custom-editors-main.ts:441-455 | New fields, calls and outcome are those of `CompleteSaveStep`. A superseded token leaves every field and the log unchanged |
| `CustomEditorsMain.MainCustomEditorModel.SaveAs` | packages/plugin-ext/src/main/browser/custom-editors/custom-editors-main.ts:457-469 | New fields, calls and outcome are those of `SaveAsStep`. Editable success: the save point is the current index. The content flag never changes |
| `CustomEditorsMain.MainCustomEditorModel.Dispose` | packages/plugin-ext/src/main/browser/custom-editors/custom-editors-main.ts:314-319 | Makes the calls of `DisposeCalls` and changes no field |
| `CustomEditorsMain.CustomEditorsMainImpl.constructor` | packages/plugin-ext/src/main/browser/custom-editors/custom-editors-main.ts:67-84 | Starts with an empty provider map |
| `CustomEditorsMain.CustomEditorsMainImpl.Dispose` | packages/plugin-ext/src/main/browser/custom-editors/custom-editors-main.ts:86-91 | Disposes each registered provider exactly once, then empties the map |
| `CustomEditorsMain.CustomEditorsMainImpl.RegisterEditorProvider` | packages/plugin-ext/src/main/browser/custom-editors/custom-editors-main.ts:102-155 | A view type already present fails with no change. Otherwise it registers one resolver and adds exactly that key |
| `CustomEditorsMain.CustomEditorsMainImpl.RegisterTextEditorProvider` | packages/plugin-ext/src/main/browser/custom-editors/custom-editors-main.ts:93-96 | Registers a text-backed provider. A duplicate changes nothing, and no error reaches the caller |
| `CustomEditorsMain.CustomEditorsMainImpl.RegisterCustomEditorProvider` | packages/plugin-ext/src/main/browser/custom-editors/custom-editors-main.ts:98-100 | Registers an edit-log provider. A duplicate changes nothing, and no error reaches the caller |
| `CustomEditorsMain.CustomEditorsMainImpl.UnregisterEditorProvider` | packages/plugin-ext/src/main/browser/custom-editors/custom-editors-main.ts:157-167 | An absent view type fails with no change. Otherwise it disposes the provider, removes exactly that key and disposes the view's models |
| `CustomEditorsMain.CustomEditorsMainImpl.OnDidEdit` | packages/plugin-ext/src/main/browser/custom-editors/custom-editors-main.ts:192-204 | With no edit-log model for the document, it fails with not-found. Otherwise it pushes the edit, as `PushEditStep` says, and passes pushEdit's error on |
| `CustomEditorsMain.CustomEditorsMainImpl.OnContentChange` | packages/plugin-ext/src/main/browser/custom-editors/custom-editors-main.ts:192-209 | With no edit-log model for the document, it fails with not-found. Otherwise the model is marked changed and is dirty |
| `DeferredRelease.ReleaseIsFinal` | packages/plugin-ext/src/main/browser/custom-editors/custom-editors-main.ts:130-135 | Once released, the reference stays released whatever is called on the model afterwards |
| `DeferredRelease.ReleasedWhenFirstClean` | packages/plugin-ext/src/main/browser/custom-editors/custom-editors-main.ts:127-136 | A widget disposed with a dirty model has its reference released iff some non-empty prefix of the later calls leaves the model clean |
| `DeferredRelease.WidgetReferenceReleased` | packages/plugin-ext/src/main/browser/custom-editors/custom-editors-main.ts:127-140 | From the widget's disposal on, the reference is released iff the model is clean at disposal or after some prefix of the later calls |

Definitions without a row of their own are covered by the lemmas about them:

- `CustomDocument.Dirty` and `MainCustomEditorModel.Dirty` (lines 300-308), and
  `CustomDocument.ChangeEffects` (the notification and autosave part of
  `change`, lines 395-409). Covered by `ChangeFiresOnFlip`, `StepFiresIffFlip`
  and `NotificationsTrackDirty`.
- `CustomDocument.EditAt`: the `undefined` read at line 358. Covered by
  `UndoMovesBack` and `SavePointCanLeaveTheLog`.
- `CustomDocument.Readonly` and `MainCustomEditorModel.Readonly`: the
  `readonly` getter at lines 321-323. Covered by `ReadOnlyKeepsEditLog`,
  `ReadOnlyStepCalls` and `ReadOnlyMakesOnlyLocalCalls`.
- `CustomDocument.CutPoint`, `Kept`, `Removed` and `DisposeEffects`: the
  clamped `splice` and its `$disposeEdits` call at lines 382-393. Covered by
  `SpliceSplits`, `PushEditCutsRedoBranch` and `RevertReturnsToSavePoint`.
- `DeferredRelease.OnWidgetDisposed`, `OnDirtyChanged` and `Track`: the
  dispose callback and its one-shot listener at lines 127-140. Covered by
  `ReleaseIsFinal`, `ReleasedWhenFirstClean` and `WidgetReferenceReleased`.

## Left out

- `CustomTextEditorModel` (text-backed documents, lines 473-537) is not part of this model. Each of its members forwards to a Monaco text model or the file service.
- Autosave firing is not modelled. When autosave is on, `change` records an `AutoSaveArmed(delay)` effect. Running the timer's `save()` is an ordinary `BeginSave` call.
- The preference listener (lines 281-293) is not modelled. `autoSave` and `autoSaveDelay` keep the values given at creation.
- The plugin host, the undo/redo service and the file service are opaque. Their calls are recorded as effects; what they do is not modelled. Two pieces of information are dropped: the document's resource and view type, which are the same in every call of one model, and the cancellation tokens passed to them, except the save's own token, which `SaveDocument` and `CancelSave` record. The copy's options are kept: `CopyFile` records its `overwrite` flag.
- Asynchrony is modelled only where it matters to the fields.
  - `save` is split at its `await`.
  - `saveAs` is modelled at the moment its awaited call settles, because that is when it reads and writes the fields.
  - `$revert` and `$undo`/`$redo` are not awaited before the fields change, and their failures are not modelled.
  - Cancelling the superseded save is recorded (`CancelSave`). Its effect in the plugin host is not modelled.
- `create` is modelled as the constructor, given the `editable` answer of `$createCustomDocument`. The `resource` getter and `setProxy` are not modelled.
- The label passed to `pushEdit` is accepted and ignored, as in the source.
- The model service behind `customEditorService.models` (`tryRetain`, `add`, `get`, `disposeAllModelsForView`, reference counting) is not part of this model. So `getOrCreateCustomEditorModel` and the resolver's `$resolveCustomEditorWebview` call are also left out.
  - `OnDidEdit` and `OnContentChange` take the lookup result as a parameter: `null` when the document has no edit-log model.
  - `UnregisterEditorProvider` only records its `disposeAllModelsForView` call.
- `$createCustomEditorPanel` (widget and shell setup) is not modelled. Nor are the webview options and capabilities handed to `registerEditorProvider`.
- `CustomEditorsMain.CustomEditorsMainImpl.RegisterEditorProvider`: the `supportsMultipleEditorsPerDocument` flag is accepted and never read, as in the source, so a registration records only its model type.
- `CustomEditorsMain.CustomEditorsMainImpl.Dispose`: the order in which the registrations are disposed is any order, not the map's insertion order.
