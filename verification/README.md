# CodeSync editor pane: lock and content state machine

This project models the `MainContent` component of CodeSync. CodeSync is a collaborative code editor in which at most one user holds write access to a shared file at a time. The component keeps five pieces of state: the working buffer `code`, the permission flag `isReadOnly`, the holder signal `isLockedByUser` (1, 2 or 3, starting at 1), `showLineNumbers` and the latched `messageStatus`. It also shares the browser's `localStorage` with the rest of the page. The component changes this state when:

- a lock query replies or fails,
- new authoritative content arrives,
- the open file changes,
- the user types.

The model has two layers:

- **`ContentSync`** describes the state as a value (`View`). Every input is an `Event`, `Step` is the transition for one event, and `Run` applies a sequence of events in arrival order. The lemmas about the component's behaviour are stated here.
- **`MainContentComponent.MainContent`** is a class with the same fields. It has one method per effect or handler. Each method's frame (`modifies this`field`) lists exactly the setters that the handler can call. Each method's postcondition states the new fields, and also states that the new `Snapshot()` is the `Step` of the old one. The dispatcher `MainContentComponent.Apply` feeds a sequence of events to these methods and is proved to end in the state `Run` gives, so every lemma proved about `Run` holds for a sequence of method calls. The purge of the local store is a loop with invariants over a snapshot of the key set. It follows the `forEach`/`removeItem` loop of the source, with two store behaviours not captured: prototype-named keys hidden from `Object.keys` and a `setItem` that throws (see "## Left out").

Supporting modules:

- `JsValues` gives JavaScript truthiness for the values a reply field or a message status can hold.
- `LocalStore` gives the slot keys `<fileNo>_original` and `<fileNo>_modified`, the reserved `userState` entry and the result of the purge.
- `LockStatus` gives how one reply sets each lock field.

JavaScript semantics are modelled literally:

- `!isLocked` is `!Truthy(v)`. So 0, `false`, `undefined` and `null` make the editor read-only, and 1, 2 and 3 all make it writable, whatever it was before. A reply of 3 blocks the editor only through the overlay predicate `isLockedByUser === 3`.
- The holder signal follows strict equality. It adopts only the numbers 1, 2 and 3; any other value keeps the previous one.
- A failed query is `Reply.Failed`. The response interceptor turns a transport error into `undefined`. Reading `.data` from that throws, and the `catch` swallows the exception, so no setter runs.
- `fileContent &&` and `if (fileNo)` test whether a string is non-empty. Every falsy prop value is represented by `""`.

The specification of the system and the code differ in two places. The model follows the code in both:

- The specification says a `checkWhoLocked` reply of 3 "forces" a blocking state. In the code, line 170 calls `setIsReadOnly(!isLocked)` on every reply, so a reply of 3 sets `isReadOnly` to false, clearing an earlier read-only state. Only the overlay blocks (`LockStatus.HolderThreeMakesWritable`, `ContentSync.HolderThreeClearsReadOnly`, `ContentSync.StrictSignalWins`).
- The specification ties the purge of the local store to a change of file identity. In the code, the purge-and-seed effect also runs when `socket`, `userNo` or `messageStatus` change. The model offers it as its own event, `Reseeded`, which the caller fires whenever that effect would run.

## Model

| member | source | states |
|---|---|---|
| `JsValues.Truthy` | src/Component/CodeSync/MainContent.jsx:119-120 | Definition of JavaScript ToBoolean, the test behind `!isLocked` here and at line 170. Its consequences are stated by `LockStatus.NumericReadOnly`, `LockStatus.HolderThreeMakesWritable` and `ContentSync.LockReplySetsOnlyPermission`. |
| `JsValues.Present` | src/Component/CodeSync/MainContent.jsx:132 | Definition of the truthiness of a string prop: the `fileContent &&` test here and the `fileNo` tests at lines 139, 146, 204 and 243. Its use is stated by `ContentSync.ContentOverwritesCode` and `ContentSync.ReseedLeavesProfileAndOriginal`. |
| `LocalStore.OriginalKey` | src/Component/CodeSync/MainContent.jsx:153 | Definition of the template literal `${fileNo}_original`, also used at line 140. Its properties are stated by `LocalStore.SlotsAreNotUserState`, `LocalStore.OriginalIsNotModified` and `LocalStore.OriginalKeyInjective`. |
| `LocalStore.ModifiedKey` | src/Component/CodeSync/MainContent.jsx:205 | Definition of the template literal `${fileNo}_modified`, also used at line 244. Its properties are stated by `LocalStore.SlotsAreNotUserState`, `LocalStore.OriginalIsNotModified` and `LocalStore.ModifiedKeyInjective`. |
| `LocalStore.PurgeExceptUserState` | src/Component/CodeSync/MainContent.jsx:147-151 | After the purge, the key set is the old key set restricted to `userState`, and every surviving value is the old one. |
| `LocalStore.SlotsAreNotUserState` | src/Component/CodeSync/MainContent.jsx:147-153 | No `<fileNo>_original` or `<fileNo>_modified` key can be the reserved `userState` key. |
| `LocalStore.OriginalIsNotModified` | src/Component/CodeSync/MainContent.jsx:204-205 | A file's original slot is never any file's modified slot. |
| `LocalStore.OriginalKeyInjective` | src/Component/CodeSync/MainContent.jsx:153 | Two files share an original slot only if they are the same file. |
| `LocalStore.ModifiedKeyInjective` | src/Component/CodeSync/MainContent.jsx:205 | Two files share a modified slot only if they are the same file. |
| `LockStatus.ReadOnlyAfter` | src/Component/CodeSync/MainContent.jsx:119-120 | Definition of `setIsReadOnly(!isLocked)` on a reply, with the previous permission kept on failure. What it means over a run is stated by `ContentSync.LastPermissionReplyWins`, `ContentSync.PermissionKeptWithoutReply` and `LockStatus.NumericReadOnly`. |
| `LockStatus.HolderAfter` | src/Component/CodeSync/MainContent.jsx:173-179 | The holder signal takes the reply's value exactly when it is the number 1, 2 or 3, and otherwise keeps its value. It stays within 1..3. |
| `LockStatus.StatusAfter` | src/Component/CodeSync/MainContent.jsx:181-183 | The message status is either unchanged or "checked". It changes exactly when a reply arrives under the message status "checked" and the status was not already "checked". |
| `LockStatus.HolderThreeMakesWritable` | src/Component/CodeSync/MainContent.jsx:169-179 | Whatever the previous permission, a reply of 3 sets the holder signal to 3 and `isReadOnly` to false. |
| `LockStatus.NumericReadOnly` | src/Component/CodeSync/MainContent.jsx:169-170 | Of the numeric replies, only 0 makes the editor read-only. |
| `ContentSync.Initial` | src/Component/CodeSync/MainContent.jsx:78-82 | Definition of the state on mount: empty code, writable, holder 1, no line numbers, empty message status, over the store as found. The class constructor is proved to produce it. |
| `ContentSync.Overlay` | src/Component/CodeSync/MainContent.jsx:217 | Definition of the overlay condition `isLockedByUser === 3`. When it holds over a run is stated by `ContentSync.LastHolderReplyWins`, `ContentSync.HolderKeptWithoutReply` and `ContentSync.StrictSignalWins`. |
| `ContentSync.Step` | src/Component/CodeSync/MainContent.jsx:112-207 | Definition of the one transition per event: the `checkLocked` result, the `checkWhoLocked` handler, the content, `fileNo` and purge-and-seed effects, and the two edit handlers. Each class method is proved to produce it. Its properties are stated by the `ContentSync` lemmas below. |
| `ContentSync.Run` | src/Component/CodeSync/MainContent.jsx:109-191 | Definition of applying events one by one in arrival order, with no reordering or cancellation of replies. Its properties are stated by `ContentSync.LastPermissionReplyWins`, `ContentSync.LastHolderReplyWins`, `ContentSync.StatusLatches`, `ContentSync.HolderStaysInRange` and `ContentSync.UserStateUntouched`. |
| `ContentSync.LockReplySetsOnlyPermission` | src/Component/CodeSync/MainContent.jsx:119-120 | A `checkLocked` reply sets `isReadOnly` to `!isLocked` and nothing else: `true` gives editable, `false` gives read-only. |
| `ContentSync.FailedQueryChangesNothing` | src/Component/CodeSync/MainContent.jsx:93-100 | A failed `checkLocked` or `checkWhoLocked` query leaves the whole state unchanged. The errors are swallowed at lines 121-123 and 184-190. |
| `ContentSync.HolderReplyEffect` | src/Component/CodeSync/MainContent.jsx:168-183 | A `checkWhoLocked` reply sets the permission from `!isLocked`, adopts exactly 1, 2 or 3 as the holder, and latches "checked". Code, line numbers and store are untouched. |
| `ContentSync.RepeatedReplyIdempotent` | src/Component/CodeSync/MainContent.jsx:168-183 | Two identical consecutive replies, of either query, give the same state as one. |
| `ContentSync.LastPermissionReplyWins` | src/Component/CodeSync/MainContent.jsx:112-124 | Over any run of events, `isReadOnly` is `!isLocked` of the last successful reply to arrive, whichever query it answers. |
| `ContentSync.PermissionKeptWithoutReply` | src/Component/CodeSync/MainContent.jsx:121-123 | A run with no successful reply leaves `isReadOnly` at its previous value: there is no reset to an unknown state. |
| `ContentSync.LateReplyOverridesNewer` | src/Component/CodeSync/MainContent.jsx:112-126 | If the reply of an earlier query arrives after a later one, the earlier query's result is the one left in force. |
| `ContentSync.LastHolderReplyWins` | src/Component/CodeSync/MainContent.jsx:175-179 | The holder signal is the value of the last reply of 1, 2 or 3. The overlay shows exactly when that value is 3. |
| `ContentSync.HolderKeptWithoutReply` | src/Component/CodeSync/MainContent.jsx:172-186 | A run with no reply of 1, 2 or 3 leaves the holder signal and the overlay as they were. |
| `ContentSync.HolderStaysInRange` | src/Component/CodeSync/MainContent.jsx:80 | If the holder signal starts in {1, 2, 3}, it stays there over any run of events. |
| `ContentSync.StrictSignalWins` | src/Component/CodeSync/MainContent.jsx:217-226 | A reply of 3 with a `checkLocked` reply of `true` shows the overlay whichever reply arrives first. `isReadOnly` ends false in both orders. |
| `ContentSync.HolderThreeClearsReadOnly` | src/Component/CodeSync/MainContent.jsx:169-179 | A reply of 3 after a read-only `checkLocked` reply leaves the editor writable and under the overlay. |
| `ContentSync.StatusLatches` | src/Component/CodeSync/MainContent.jsx:181-183 | After any run, the message status is "checked" if some successful `checkWhoLocked` reply was issued under a "checked" message. Otherwise it is unchanged. |
| `ContentSync.ContentOverwritesCode` | src/Component/CodeSync/MainContent.jsx:131-136 | Incoming content replaces `code` exactly when it is non-empty, and nothing else changes. |
| `ContentSync.DraftDiscarded` | src/Component/CodeSync/MainContent.jsx:132-134 | A working buffer "draft" becomes "final" when the content "final" arrives. |
| `ContentSync.ContentIdempotent` | src/Component/CodeSync/MainContent.jsx:131-136 | Applying the same content twice gives the same state as applying it once. |
| `ContentSync.FileNoChangeSeedsOriginal` | src/Component/CodeSync/MainContent.jsx:138-143 | With content and a file id, the original slot is added or overwritten with the content and `code` is reset to it. All other keys, values and fields stay. Otherwise nothing changes. |
| `ContentSync.ReseedLeavesProfileAndOriginal` | src/Component/CodeSync/MainContent.jsx:145-157 | With content and a file id, the store holds exactly `userState` (value untouched, if it was present) and `<fileNo>_original` holding the content. `code` is the content, line numbers are shown, and the lock fields are unchanged. Otherwise nothing changes. |
| `ContentSync.SwitchDropsPreviousDraft` | src/Component/CodeSync/MainContent.jsx:145-157 | Switching from F1 with `F1_modified = "x"` to F2 removes `F1_modified`. `F2_original` then holds the new content, and `userState` is untouched. |
| `ContentSync.EditWritesOnlyModifiedSlot` | src/Component/CodeSync/MainContent.jsx:195-207 | An edit sets `code`. With a file id it writes `<fileNo>_modified` and no other key, so no file's original slot changes. Without a file id the store is untouched. |
| `ContentSync.StepKeepsUserState` | src/Component/CodeSync/MainContent.jsx:147-151 | No event creates, removes or changes the `userState` entry. |
| `ContentSync.UserStateUntouched` | src/Component/CodeSync/MainContent.jsx:145-157 | Over any run of events, the `userState` entry is neither created, removed nor changed. |
| `MainContentComponent.MainContent.constructor` | src/Component/CodeSync/MainContent.jsx:78-82 | The component mounts with empty code, writable, holder 1, no line numbers and an empty message status, over the store as found. |
| `MainContentComponent.MainContent.ShowsOverlay` | src/Component/CodeSync/MainContent.jsx:217 | Definition of the rendered overlay as `ContentSync.Overlay` of the current state. Which replies put it there is stated by `ContentSync.LastHolderReplyWins` and `ContentSync.HolderKeptWithoutReply`. |
| `MainContentComponent.MainContent.OnLockChecked` | src/Component/CodeSync/MainContent.jsx:112-124 | Only `isReadOnly` may change. It becomes `!isLocked` on a reply and is kept on failure. The holder invariant is preserved. |
| `MainContentComponent.MainContent.OnHolderChecked` | src/Component/CodeSync/MainContent.jsx:168-190 | Only the three lock fields may change. On failure none changes. On a reply they become `!isLocked`, the adopted holder and the latched status. The holder stays in 1..3. |
| `MainContentComponent.MainContent.OnContentReceived` | src/Component/CodeSync/MainContent.jsx:131-136 | Only `code` may change. It becomes the content when the content is non-empty. |
| `MainContentComponent.MainContent.OnFileNoChanged` | src/Component/CodeSync/MainContent.jsx:138-143 | With content and a file id, it writes the original slot and resets `code`. Otherwise nothing changes. |
| `MainContentComponent.MainContent.OnReseed` | src/Component/CodeSync/MainContent.jsx:145-157 | With content and a file id, the store becomes the purged store plus the original slot, and `code` and line numbers are reset. Otherwise nothing changes. The purge is a loop whose invariants keep exactly the unvisited keys and `userState`. |
| `MainContentComponent.MainContent.HandleCodeChange` | src/Component/CodeSync/MainContent.jsx:195-207 | Sets `code` and forwards the text when a callback exists. With a file id it writes the modified slot. |
| `MainContentComponent.MainContent.OnEditorChange` | src/Component/CodeSync/MainContent.jsx:240-246 | Sets `code` and, with a file id, writes the modified slot, without forwarding. |
| `MainContentComponent.Apply` | src/Component/CodeSync/MainContent.jsx:109-207 | Handing each event of a sequence, in arrival order, to its method leaves the component in the state `ContentSync.Run` gives, and keeps the holder invariant. |

## Left out

- Styling, layout and CodeMirror rendering options (MainContent.jsx:10-75, 213-252): these are presentation only. Only the overlay predicate is kept.
- The axios transport: URLs, request bodies, and installing and ejecting the response interceptor. This is network I/O. A query's outcome arrives as a `Reply` event parameter.
- React effect scheduling and dependency arrays. The caller invokes the method of an effect whenever that effect would run. This includes running the purge-and-seed effect when `messageStatus` changes. React's bail-out on setting an equal value is not modelled.
- The asynchronous event loop. Overlapping queries are a sequence of reply events in arrival order. `message?.status` is passed in as it was captured when the query was issued.
- The `console.error` override and the `console.log` call: these are ambient output.
- Redux `useSelector` and `useParams` are a foreign library. The values of `userNo` and `codeSyncNo` only go into request bodies. A change of `userNo` also re-runs the purge-and-seed effect (line 157), which the caller models by firing `Reseeded`.
- A lock query is only issued when there is a file id (lines 110 and 160). The model takes replies as given and does not check that a file id was present when the query was issued.
- The parent's `onFileContentChange` callback is a foreign call. The model records each forwarded text in the ghost sequence `forwarded`.
- JavaScript numbers beyond integers (NaN, fractions) are not represented in `JsValue`. A `fileNo` is its string form as template interpolation would produce it, and every falsy `fileNo` or `fileContent` is the empty string.
- The order in which CodeMirror calls `onBeforeChange` and `onChange` for one keystroke is not modelled. Each is its own method, and both leave the same state.
- The combined three-way permission (editable, read-only, held elsewhere) is not defined: the component never computes one. It renders `isReadOnly` and the overlay separately, and the lemmas state how each is set.
- LocalStore.PurgeExceptUserState: removes every key except `userState`. The source loop only visits the keys that `Object.keys(localStorage)` returns. Under Web IDL's rule for named properties, a key that names a member of the `Storage` prototype (`length`, `getItem`, ...) is not returned, so the source keeps it and the model drops it. Engines may differ here. The "exactly these keys" of `ContentSync.ReseedLeavesProfileAndOriginal` therefore holds in the source only for a store without such keys.
- MainContentComponent.MainContent.OnReseed: does not model a `setItem` that throws when the storage quota is exceeded. In the source, such a throw at line 153 leaves the store purged with no original slot, and `setCode` and `setShowLineNumbers` never run. The model always writes the original slot and resets both fields.
- MainContentComponent.MainContent.HandleCodeChange: does not model a `setItem` that throws when the storage quota is exceeded. At line 205 such a throw leaves the modified slot unwritten after `code` has already been set. The model always writes the slot.
- MainContentComponent.MainContent.OnFileNoChanged: likewise assumes that `setItem` at line 140 succeeds. A throw there would leave `code` unchanged.
- MainContentComponent.MainContent.OnEditorChange: does not model a `setItem` that throws when the storage quota is exceeded. Such a throw at line 244 leaves the modified slot unwritten after `code` has already been set. The model always writes the slot.
