/** The `MainContent` component as an object: its state hooks and the shared
    local store are fields, and every effect or handler is a method that the
    caller invokes when the corresponding event arrives. Each method's new
    state is the `ContentSync.Step` of its event. */
module MainContentComponent {
  import opened JsValues
  import opened LocalStore
  import opened LockStatus
  import opened ContentSync

  class MainContent {
    var code: string
    var isReadOnly: bool
    var isLockedByUser: int
    var showLineNumbers: bool
    var messageStatus: string
    /** `localStorage`, shared with the rest of the page. */
    var store: Store
    /** Every text handed to the parent's `onFileContentChange`, in order. */
    ghost var forwarded: seq<string>

    function Snapshot(): View
      reads this
    {
      View(code, isReadOnly, isLockedByUser, showLineNumbers, messageStatus, store)
    }

    /** The holder signal only ever takes the values 1, 2 and 3. Every
        mutator requires and ensures it; only the two reply handlers have
        `isLockedByUser` in their frame. */
    ghost predicate Valid()
      reads this
    {
      1 <= isLockedByUser <= 3
    }

    /** Mounting: the initial hook values over the store as found. */
    constructor (initialStore: Store)
      ensures Valid()
      ensures Snapshot() == Initial(initialStore)
      ensures forwarded == []
    {
      code := "";
      isReadOnly := false;
      isLockedByUser := 1;
      showLineNumbers := false;
      messageStatus := "";
      store := initialStore;
      forwarded := [];
    }

    /** The blocking overlay is rendered: `ContentSync.Overlay` of the
        current state. */
    function ShowsOverlay(): (shown: bool)
      reads this
      ensures shown <==> isLockedByUser == 3
    {
      Overlay(Snapshot())
    }

    /** The `checkLockStatus` handler receiving the `checkLocked` outcome. */
    method OnLockChecked(r: Reply)
      requires Valid()
      modifies this`isReadOnly
      ensures Valid()
      ensures r.Failed? ==> isReadOnly == old(isReadOnly)
      ensures r.Replied? ==> (isReadOnly <==> !Truthy(r.isLocked))
      ensures Snapshot() == Step(old(Snapshot()), LockChecked(r))
    {
      match r {
        case Failed =>
          // reading `.data` of the undefined response throws; the catch ignores it
        case Replied(isLocked) =>
          isReadOnly := !Truthy(isLocked);
      }
    }

    /** The `.then` handler of `checkWhoLocked`; `status` is `message?.status`
        as captured when the query was issued. */
    method OnHolderChecked(r: Reply, status: JsValue)
      requires Valid()
      modifies this`isReadOnly, this`isLockedByUser, this`messageStatus
      ensures Valid()
      ensures r.Failed? ==> isReadOnly == old(isReadOnly) && isLockedByUser == old(isLockedByUser)
                            && messageStatus == old(messageStatus)
      ensures r.Replied? ==> (isReadOnly <==> !Truthy(r.isLocked))
      ensures isLockedByUser == HolderAfter(old(isLockedByUser), r)
      ensures messageStatus == StatusAfter(old(messageStatus), r, status)
      ensures Snapshot() == Step(old(Snapshot()), HolderChecked(r, status))
    {
      match r {
        case Failed =>
          // the handler throws before any setter runs; `.catch` ignores it
        case Replied(lockStatus) =>
          isReadOnly := !Truthy(lockStatus);
          if lockStatus == Num(1) || lockStatus == Num(2) {
            isLockedByUser := lockStatus.n;
          } else if lockStatus == Num(3) {
            isLockedByUser := 3;
          }
          if status == Str("checked") {
            messageStatus := "checked";
          }
      }
    }

    /** The effect on `fileContent`: adopt non-empty content that differs. */
    method OnContentReceived(fileContent: string)
      requires Valid()
      modifies this`code
      ensures Valid()
      ensures code == if Present(fileContent) then fileContent else old(code)
      ensures Snapshot() == Step(old(Snapshot()), ContentReceived(fileContent))
    {
      if Present(fileContent) && fileContent != code {
        code := fileContent;
      }
    }

    /** The effect on `fileNo`: seed the original slot and the working buffer. */
    method OnFileNoChanged(fileContent: string, fileNo: string)
      requires Valid()
      modifies this`code, this`store
      ensures Valid()
      ensures Present(fileContent) && Present(fileNo) ==>
        store == old(store)[OriginalKey(fileNo) := fileContent] && code == fileContent
      ensures !(Present(fileContent) && Present(fileNo)) ==> store == old(store) && code == old(code)
      ensures Snapshot() == Step(old(Snapshot()), FileNoChanged(fileContent, fileNo))
    {
      if Present(fileContent) && Present(fileNo) {
        store := store[OriginalKey(fileNo) := fileContent];
        code := fileContent;
      }
    }

    /** The purge-and-seed effect: remove every key but the profile entry,
        one key at a time over a snapshot of the key list, then seed. */
    method OnReseed(fileContent: string, fileNo: string)
      requires Valid()
      modifies this`code, this`store, this`showLineNumbers
      ensures Valid()
      ensures Present(fileContent) && Present(fileNo) ==>
        && store == PurgeExceptUserState(old(store))[OriginalKey(fileNo) := fileContent]
        && code == fileContent && showLineNumbers
      ensures !(Present(fileContent) && Present(fileNo)) ==>
        store == old(store) && code == old(code) && showLineNumbers == old(showLineNumbers)
      ensures Snapshot() == Step(old(Snapshot()), Reseeded(fileContent, fileNo))
    {
      if Present(fileContent) && Present(fileNo) {
        var keys := store.Keys;
        while keys != {}
          invariant keys <= old(store).Keys
          invariant store.Keys == old(store).Keys * (keys + {UserStateKey})
          invariant forall k :: k in store ==> store[k] == old(store)[k]
          decreases keys
        {
          var key :| key in keys;
          if key != UserStateKey {
            store := store - {key};
          }
          keys := keys - {key};
        }
        store := store[OriginalKey(fileNo) := fileContent];
        code := fileContent;
        showLineNumbers := true;
      }
    }

    /** `handleCodeChange`: keep the text, forward it to the parent when a
        callback is given, and store it in the modified slot. */
    method HandleCodeChange(newCode: string, fileNo: string, hasCallback: bool)
      requires Valid()
      modifies this`code, this`store, this`forwarded
      ensures Valid()
      ensures code == newCode
      ensures store == if Present(fileNo) then old(store)[ModifiedKey(fileNo) := newCode] else old(store)
      ensures forwarded == if hasCallback then old(forwarded) + [newCode] else old(forwarded)
      ensures Snapshot() == Step(old(Snapshot()), CodeEdited(newCode, fileNo))
    {
      code := newCode;
      if hasCallback {
        forwarded := forwarded + [newCode];
      }
      if Present(fileNo) {
        store := store[ModifiedKey(fileNo) := newCode];
      }
    }

    /** The editor's inline `onChange`: keep the text and store it, without
        forwarding. */
    method OnEditorChange(value: string, fileNo: string)
      requires Valid()
      modifies this`code, this`store
      ensures Valid()
      ensures code == value
      ensures store == if Present(fileNo) then old(store)[ModifiedKey(fileNo) := value] else old(store)
      ensures Snapshot() == Step(old(Snapshot()), CodeEdited(value, fileNo))
    {
      code := value;
      if Present(fileNo) {
        store := store[ModifiedKey(fileNo) := value];
      }
    }
  }

  /** Feeds the events to the component in arrival order, each to the method
      that handles it; the component ends in the state `Run` gives, so every
      lemma about `Run` holds of a sequence of method calls. `hasCallback`
      says whether the parent passed `onFileContentChange`. */
  method Apply(c: MainContent, es: seq<Event>, hasCallback: bool)
    requires c.Valid()
    modifies c
    ensures c.Valid()
    ensures c.Snapshot() == Run(old(c.Snapshot()), es)
  {
    for i := 0 to |es|
      invariant c.Valid()
      invariant c.Snapshot() == Run(old(c.Snapshot()), es[..i])
    {
      match es[i] {
        case LockChecked(r) => c.OnLockChecked(r);
        case HolderChecked(r, status) => c.OnHolderChecked(r, status);
        case ContentReceived(content) => c.OnContentReceived(content);
        case FileNoChanged(content, f) => c.OnFileNoChanged(content, f);
        case Reseeded(content, f) => c.OnReseed(content, f);
        case CodeEdited(v, f) => c.HandleCodeChange(v, f, hasCallback);
      }
      assert es[..i + 1][..i] == es[..i];
    }
    assert es[..|es|] == es;
  }

  /** A client: an editable `checkLocked` reply followed by a `checkWhoLocked`
      reply of 3 leaves the editor writable but covered by the overlay, and a
      later failed query changes neither. */
  method StrictSignalScenario(initialStore: Store)
  {
    var c := new MainContent(initialStore);
    c.OnLockChecked(Replied(Bool(true)));
    assert !c.isReadOnly;
    c.OnHolderChecked(Replied(Num(3)), Undefined);
    assert c.ShowsOverlay() && !c.isReadOnly;
    c.OnLockChecked(Failed);
    assert c.ShowsOverlay() && !c.isReadOnly;
  }

  /** A client: switching from F1 to F2 drops F1's stored draft and keeps the
      profile entry. */
  method FileSwitchScenario(profile: string)
  {
    var c := new MainContent(map[UserStateKey := profile]);
    c.OnReseed("one", "F1");
    c.HandleCodeChange("x", "F1", true);
    assert c.store[ModifiedKey("F1")] == "x";
    c.OnReseed("two", "F2");
    OriginalIsNotModified("F2", "F1");
    SlotsAreNotUserState("F1");
    assert ModifiedKey("F1") !in c.store;
    assert c.store[OriginalKey("F2")] == "two" && c.store[UserStateKey] == profile;
    assert c.code == "two";
  }
}
