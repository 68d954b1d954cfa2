/** The component's state as a value, the events that drive it, and the
    transition each event causes. Responses and edits are applied one at a
    time in arrival order; `Run` folds a sequence of events in that order. */
module ContentSync {
  import opened JsValues
  import opened LocalStore
  import opened LockStatus

  /** The five state hooks of the component plus the shared local store. */
  datatype View = View(
    code: string,
    isReadOnly: bool,
    isLockedByUser: int,
    showLineNumbers: bool,
    messageStatus: string,
    store: Store)

  /** The state on mount; the store is whatever `localStorage` already holds. */
  function Initial(store: Store): View
  {
    View("", false, 1, false, "", store)
  }

  /** The blocking "work in progress" overlay is rendered. */
  predicate Overlay(s: View)
  {
    s.isLockedByUser == 3
  }

  /** One input to the component. */
  datatype Event =
      /** The `checkLocked` query of `checkLockStatus` completed. */
    | LockChecked(reply: Reply)
      /** The `checkWhoLocked` query completed; `status` is `message?.status`
          as captured when the query was issued. */
    | HolderChecked(reply: Reply, status: JsValue)
      /** The `fileContent` prop changed. */
    | ContentReceived(fileContent: string)
      /** The `fileNo` prop changed (the re-seed effect). */
    | FileNoChanged(fileContent: string, fileNo: string)
      /** The purge-and-seed effect ran (on `fileNo`, `socket`, `userNo` or
          `messageStatus` changing). */
    | Reseeded(fileContent: string, fileNo: string)
      /** The editor reported new text (`handleCodeChange` or `onChange`). */
    | CodeEdited(newCode: string, fileNo: string)

  function Step(s: View, e: Event): View
  {
    match e
    case LockChecked(r) =>
      s.(isReadOnly := ReadOnlyAfter(s.isReadOnly, r))
    case HolderChecked(r, status) =>
      s.(isReadOnly := ReadOnlyAfter(s.isReadOnly, r),
         isLockedByUser := HolderAfter(s.isLockedByUser, r),
         messageStatus := StatusAfter(s.messageStatus, r, status))
    case ContentReceived(c) =>
      if Present(c) && c != s.code then s.(code := c) else s
    case FileNoChanged(c, f) =>
      if Present(c) && Present(f) then s.(store := s.store[OriginalKey(f) := c], code := c) else s
    case Reseeded(c, f) =>
      if Present(c) && Present(f) then
        s.(store := PurgeExceptUserState(s.store)[OriginalKey(f) := c], code := c, showLineNumbers := true)
      else s
    case CodeEdited(v, f) =>
      s.(code := v, store := if Present(f) then s.store[ModifiedKey(f) := v] else s.store)
  }

  /** The state after applying `es` in order, the last event last. */
  function Run(s: View, es: seq<Event>): View
    decreases |es|
  {
    if es == [] then s else Step(Run(s, es[..|es| - 1]), es[|es| - 1])
  }

  // ---------------------------------------------------------------- lock queries

  /** A `checkLocked` reply sets `isReadOnly` to `!isLocked` and touches
      nothing else; for a boolean reply, `true` means editable. */
  lemma LockReplySetsOnlyPermission(s: View, v: JsValue)
    ensures var t := Step(s, LockChecked(Replied(v)));
      (t.isReadOnly <==> !Truthy(v)) && t == s.(isReadOnly := t.isReadOnly)
    ensures Step(s, LockChecked(Replied(Bool(true)))).isReadOnly == false
    ensures Step(s, LockChecked(Replied(Bool(false)))).isReadOnly == true
  {
  }

  /** A failed query of either kind changes nothing at all. */
  lemma FailedQueryChangesNothing(s: View, status: JsValue)
    ensures Step(s, LockChecked(Failed)) == s
    ensures Step(s, HolderChecked(Failed, status)) == s
  {
  }

  /** A `checkWhoLocked` reply: the permission follows `!isLocked`, the holder
      signal adopts exactly 1, 2 or 3, the message status latches on
      "checked", and code, line numbers and store are untouched. */
  lemma HolderReplyEffect(s: View, v: JsValue, status: JsValue)
    ensures var t := Step(s, HolderChecked(Replied(v), status));
      && (t.isReadOnly <==> !Truthy(v))
      && (v in {Num(1), Num(2), Num(3)} ==> t.isLockedByUser == v.n)
      && (v !in {Num(1), Num(2), Num(3)} ==> t.isLockedByUser == s.isLockedByUser)
      && (status == Str("checked") ==> t.messageStatus == "checked")
      && (status != Str("checked") ==> t.messageStatus == s.messageStatus)
      && t.code == s.code && t.showLineNumbers == s.showLineNumbers && t.store == s.store
  {
  }

  /** Two identical replies in a row leave the same state as one. */
  lemma RepeatedReplyIdempotent(s: View, r: Reply, status: JsValue)
    ensures Step(Step(s, LockChecked(r)), LockChecked(r)) == Step(s, LockChecked(r))
    ensures Step(Step(s, HolderChecked(r, status)), HolderChecked(r, status)) == Step(s, HolderChecked(r, status))
  {
  }

  /** An event that sets `isReadOnly`: a successful reply of either query. */
  predicate SetsPermission(e: Event)
  {
    (e.LockChecked? || e.HolderChecked?) && e.reply.Replied?
  }

  /** Responses are applied in arrival order: the permission is decided by the
      last successful reply to arrive, whichever query it answers and however
      late it was issued. */
  lemma {:induction false} LastPermissionReplyWins(s: View, es: seq<Event>, i: nat)
    requires i < |es| && SetsPermission(es[i])
    requires forall j :: i < j < |es| ==> !SetsPermission(es[j])
    ensures Run(s, es).isReadOnly == !Truthy(es[i].reply.isLocked)
    decreases |es|
  {
    var n := |es| - 1;
    if i < n {
      var init := es[..n];
      forall j | i < j < |init| ensures !SetsPermission(init[j]) {
        assert init[j] == es[j];
      }
      LastPermissionReplyWins(s, init, i);
    }
  }

  /** Without a successful reply the permission stays at its last value: there
      is no reset to an unknown state. */
  lemma {:induction false} PermissionKeptWithoutReply(s: View, es: seq<Event>)
    requires forall j :: 0 <= j < |es| ==> !SetsPermission(es[j])
    ensures Run(s, es).isReadOnly == s.isReadOnly
    decreases |es|
  {
    if es != [] {
      var init := es[..|es| - 1];
      forall j | 0 <= j < |init| ensures !SetsPermission(init[j]) {
        assert init[j] == es[j];
      }
      PermissionKeptWithoutReply(s, init);
    }
  }

  /** Query A issued before query B whose reply arrives after B's: A's stale
      result is the one left in force. */
  lemma LateReplyOverridesNewer(s: View, a: JsValue, b: JsValue)
    ensures Run(s, [LockChecked(Replied(b)), LockChecked(Replied(a))]).isReadOnly == !Truthy(a)
  {
    var es := [LockChecked(Replied(b)), LockChecked(Replied(a))];
    LastPermissionReplyWins(s, es, 1);
  }

  /** An event that moves the holder signal: a `checkWhoLocked` reply of 1, 2 or 3. */
  predicate SetsHolder(e: Event)
  {
    e.HolderChecked? && e.reply.Replied? && e.reply.isLocked.Num? && 1 <= e.reply.isLocked.n <= 3
  }

  /** The holder signal is the value of the last `checkWhoLocked` reply of 1, 2 or 3. */
  lemma {:induction false} LastHolderReplyWins(s: View, es: seq<Event>, i: nat)
    requires i < |es| && SetsHolder(es[i])
    requires forall j :: i < j < |es| ==> !SetsHolder(es[j])
    ensures Run(s, es).isLockedByUser == es[i].reply.isLocked.n
    ensures Overlay(Run(s, es)) <==> es[i].reply.isLocked == Num(3)
    decreases |es|
  {
    var n := |es| - 1;
    if i < n {
      var init := es[..n];
      forall j | i < j < |init| ensures !SetsHolder(init[j]) {
        assert init[j] == es[j];
      }
      LastHolderReplyWins(s, init, i);
    }
  }

  /** Without such a reply the holder signal, and so the overlay, stays as it was. */
  lemma {:induction false} HolderKeptWithoutReply(s: View, es: seq<Event>)
    requires forall j :: 0 <= j < |es| ==> !SetsHolder(es[j])
    ensures Run(s, es).isLockedByUser == s.isLockedByUser
    ensures Overlay(Run(s, es)) <==> Overlay(s)
    decreases |es|
  {
    if es != [] {
      var init := es[..|es| - 1];
      forall j | 0 <= j < |init| ensures !SetsHolder(init[j]) {
        assert init[j] == es[j];
      }
      HolderKeptWithoutReply(s, init);
    }
  }

  /** Starting in {1, 2, 3}, the holder signal never leaves that set. */
  lemma {:induction false} HolderStaysInRange(s: View, es: seq<Event>)
    requires 1 <= s.isLockedByUser <= 3
    ensures 1 <= Run(s, es).isLockedByUser <= 3
    decreases |es|
  {
    if es != [] {
      HolderStaysInRange(s, es[..|es| - 1]);
    }
  }

  /** The strict signal wins: a `checkWhoLocked` reply of 3 shows the overlay
      whether the `checkLocked` reply saying "editable" arrives before or after
      it, and in both orders `isReadOnly` ends false. */
  lemma StrictSignalWins(s: View, status: JsValue)
    ensures var t := Run(s, [LockChecked(Replied(Bool(true))), HolderChecked(Replied(Num(3)), status)]);
      Overlay(t) && !t.isReadOnly
    ensures var t := Run(s, [HolderChecked(Replied(Num(3)), status), LockChecked(Replied(Bool(true)))]);
      Overlay(t) && !t.isReadOnly
  {
    var es1 := [LockChecked(Replied(Bool(true))), HolderChecked(Replied(Num(3)), status)];
    var es2 := [HolderChecked(Replied(Num(3)), status), LockChecked(Replied(Bool(true)))];
    LastHolderReplyWins(s, es1, 1);
    LastHolderReplyWins(s, es2, 0);
    LastPermissionReplyWins(s, es1, 1);
    LastPermissionReplyWins(s, es2, 1);
  }

  /** A `checkWhoLocked` reply of 3 after a read-only `checkLocked` reply makes
      the editor writable again, under the overlay. */
  lemma HolderThreeClearsReadOnly(s: View, status: JsValue)
    ensures var t := Run(s, [LockChecked(Replied(Bool(false))), HolderChecked(Replied(Num(3)), status)]);
      Overlay(t) && !t.isReadOnly
  {
    var es := [LockChecked(Replied(Bool(false))), HolderChecked(Replied(Num(3)), status)];
    LastPermissionReplyWins(s, es, 1);
    LastHolderReplyWins(s, es, 1);
  }

  /** An event that latches the message status. */
  predicate DeliversChecked(e: Event)
  {
    e.HolderChecked? && e.reply.Replied? && e.status == Str("checked")
  }

  /** The message status is "checked" once any successful `checkWhoLocked`
      reply was issued under a "checked" message, and otherwise keeps its
      initial value. */
  lemma {:induction false} StatusLatches(s: View, es: seq<Event>)
    ensures Run(s, es).messageStatus ==
      if exists i :: 0 <= i < |es| && DeliversChecked(es[i]) then "checked" else s.messageStatus
    decreases |es|
  {
    if es != [] {
      var n := |es| - 1;
      var init := es[..n];
      StatusLatches(s, init);
      if exists i :: 0 <= i < |init| && DeliversChecked(init[i]) {
        var i :| 0 <= i < |init| && DeliversChecked(init[i]);
        assert es[i] == init[i];
      } else if !DeliversChecked(es[n]) {
        forall i | 0 <= i < |es| ensures !DeliversChecked(es[i]) {
          if i < n {
            assert es[i] == init[i];
          }
        }
      }
    }
  }

  // ---------------------------------------------------------------- content

  /** Incoming content replaces `code` exactly when it is non-empty, discarding
      any local draft; everything else stays. */
  lemma ContentOverwritesCode(s: View, c: string)
    ensures var t := Step(s, ContentReceived(c));
      t.code == (if Present(c) then c else s.code) && t == s.(code := t.code)
  {
  }

  /** The draft "draft" is lost when the content "final" arrives. */
  lemma DraftDiscarded(s: View)
    requires s.code == "draft"
    ensures Step(s, ContentReceived("final")).code == "final"
  {
  }

  /** Applying the same content twice is the same as applying it once. */
  lemma ContentIdempotent(s: View, c: string)
    ensures Step(Step(s, ContentReceived(c)), ContentReceived(c)) == Step(s, ContentReceived(c))
  {
  }

  /** The `fileNo` effect: with content and a file id, the original slot holds
      the content, the working buffer is reset to it and every other key keeps
      its value; without either, nothing changes. */
  lemma FileNoChangeSeedsOriginal(s: View, c: string, f: string)
    ensures var t := Step(s, FileNoChanged(c, f));
      if Present(c) && Present(f) then
        && t.store.Keys == s.store.Keys + {OriginalKey(f)}
        && t.store[OriginalKey(f)] == c
        && (forall k :: k in s.store && k != OriginalKey(f) ==> t.store[k] == s.store[k])
        && t.code == c
        && t == s.(code := c, store := t.store)
      else t == s
  {
  }

  /** The purge-and-seed effect: with content and a file id, the store holds
      exactly the reserved profile entry (untouched, when it was there) and the
      file's original slot; code is the content and line numbers are shown.
      Without either, nothing changes. */
  lemma {:induction false} ReseedLeavesProfileAndOriginal(s: View, c: string, f: string)
    ensures var t := Step(s, Reseeded(c, f));
      if Present(c) && Present(f) then
        && t.store.Keys == (s.store.Keys * {UserStateKey}) + {OriginalKey(f)}
        && t.store[OriginalKey(f)] == c
        && (UserStateKey in s.store ==> t.store[UserStateKey] == s.store[UserStateKey])
        && t.code == c && t.showLineNumbers
        && t.isReadOnly == s.isReadOnly && t.isLockedByUser == s.isLockedByUser
        && t.messageStatus == s.messageStatus
      else t == s
  {
    SlotsAreNotUserState(f);
  }

  /** Switching from F1 to F2 with a draft of F1 stored: the draft is gone,
      F2's original slot holds the new content, the profile entry is intact. */
  lemma SwitchDropsPreviousDraft(s: View, profile: string, c: string)
    requires s.store == map[ModifiedKey("F1") := "x", UserStateKey := profile]
    requires Present(c)
    ensures var t := Step(s, Reseeded(c, "F2"));
      && ModifiedKey("F1") !in t.store
      && t.store[OriginalKey("F2")] == c
      && t.store[UserStateKey] == profile
  {
    ReseedLeavesProfileAndOriginal(s, c, "F2");
    OriginalIsNotModified("F2", "F1");
    SlotsAreNotUserState("F1");
  }

  // ---------------------------------------------------------------- edits

  /** A local edit always sets `code`; with a file id it writes the modified
      slot and no other key, so no file's original slot is ever touched;
      without one the store is untouched. */
  lemma {:induction false} EditWritesOnlyModifiedSlot(s: View, v: string, f: string)
    ensures var t := Step(s, CodeEdited(v, f));
      && t.code == v
      && (Present(f) ==> ModifiedKey(f) in t.store && t.store[ModifiedKey(f)] == v)
      && (forall k :: k in t.store && (!Present(f) || k != ModifiedKey(f)) ==> k in s.store && t.store[k] == s.store[k])
      && (forall k :: k in s.store ==> k in t.store)
      && (forall g :: OriginalKey(g) in s.store ==> t.store[OriginalKey(g)] == s.store[OriginalKey(g)])
      && t == s.(code := v, store := t.store)
  {
    var t := Step(s, CodeEdited(v, f));
    forall g | OriginalKey(g) in s.store
      ensures t.store[OriginalKey(g)] == s.store[OriginalKey(g)]
    {
      OriginalIsNotModified(g, f);
    }
  }

  // ---------------------------------------------------------------- the reserved entry

  /** No event writes or removes the reserved profile entry. */
  lemma {:induction false} StepKeepsUserState(s: View, e: Event)
    ensures UserStateKey in Step(s, e).store <==> UserStateKey in s.store
    ensures UserStateKey in s.store ==> Step(s, e).store[UserStateKey] == s.store[UserStateKey]
  {
    match e
    case FileNoChanged(_, f) => SlotsAreNotUserState(f);
    case Reseeded(_, f) => SlotsAreNotUserState(f);
    case CodeEdited(_, f) => SlotsAreNotUserState(f);
    case _ =>
  }

  /** Over any run of events, the reserved profile entry is neither created,
      removed nor changed. */
  lemma {:induction false} UserStateUntouched(s: View, es: seq<Event>)
    ensures UserStateKey in Run(s, es).store <==> UserStateKey in s.store
    ensures UserStateKey in s.store ==> Run(s, es).store[UserStateKey] == s.store[UserStateKey]
    decreases |es|
  {
    if es != [] {
      UserStateUntouched(s, es[..|es| - 1]);
      StepKeepsUserState(Run(s, es[..|es| - 1]), es[|es| - 1]);
    }
  }
}
