/** The browser's `localStorage` as a map from keys to strings, the slot keys
    the component builds, and what its purge loop leaves behind. */
module LocalStore {

  type Store = map<string, string>

  /** The reserved cross-file entry holding the user profile; the purge keeps it. */
  const UserStateKey: string := "userState"

  /** `${fileNo}_original`: the last authoritative content of a file. */
  function OriginalKey(fileNo: string): string
  {
    fileNo + "_original"
  }

  /** `${fileNo}_modified`: the last local edit of a file. */
  function ModifiedKey(fileNo: string): string
  {
    fileNo + "_modified"
  }

  /** The store after removing every key except the reserved one. */
  function PurgeExceptUserState(m: Store): (r: Store)
    ensures r.Keys == m.Keys * {UserStateKey}
    ensures forall k :: k in r ==> r[k] == m[k]
  {
    if UserStateKey in m then map[UserStateKey := m[UserStateKey]] else map[]
  }

  /** Neither content slot can collide with the reserved profile entry. */
  lemma {:induction false} SlotsAreNotUserState(fileNo: string)
    ensures OriginalKey(fileNo) != UserStateKey
    ensures ModifiedKey(fileNo) != UserStateKey
  {
    if fileNo == "" {
      assert OriginalKey(fileNo)[0] == '_' != UserStateKey[0];
      assert ModifiedKey(fileNo)[0] == '_' != UserStateKey[0];
    } else {
      assert |OriginalKey(fileNo)| > |UserStateKey|;
      assert |ModifiedKey(fileNo)| > |UserStateKey|;
    }
  }

  /** The original slot of one file is never the modified slot of any file:
      the two keys end in different letters. */
  lemma {:induction false} OriginalIsNotModified(f: string, g: string)
    ensures OriginalKey(f) != ModifiedKey(g)
  {
    var o, m := OriginalKey(f), ModifiedKey(g);
    if |o| == |m| {
      assert o[|o| - 1] == 'l';
      assert m[|m| - 1] == 'd';
    }
  }

  /** Distinct files have distinct original slots. */
  lemma {:induction false} OriginalKeyInjective(f: string, g: string)
    requires OriginalKey(f) == OriginalKey(g)
    ensures f == g
  {
    assert |f| == |g|;
    assert f == OriginalKey(f)[..|f|];
    assert g == OriginalKey(g)[..|g|];
  }

  /** Distinct files have distinct modified slots. */
  lemma {:induction false} ModifiedKeyInjective(f: string, g: string)
    requires ModifiedKey(f) == ModifiedKey(g)
    ensures f == g
  {
    assert |f| == |g|;
    assert f == ModifiedKey(f)[..|f|];
    assert g == ModifiedKey(g)[..|g|];
  }
}
