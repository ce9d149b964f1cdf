/**
 * The per-field diff between the old and the new image of a row that the
 * audit panel shows for an UPDATE entry (getDiffText). The formatted
 * "key: old -> new" strings are modelled as change records.
 */
module RowDiff {
  import opened AuditTypes

  /** One line of the diff text: a key whose value changed, or a key that disappeared. */
  datatype Change =
    | Changed(key: string, before: Option<Value>, after: Value)
    | Removed(key: string, was: Value)

  /** The test `oldData[key] !== newData[key]` for a key of the new image. */
  predicate Differs(oldImg: RowImage, newImg: RowImage, k: string)
    requires k in newImg
  {
    k !in oldImg || oldImg[k] != newImg[k]
  }

  /** `keys` is an order in which `for...in` may visit `m`: every key exactly once. */
  predicate Enumerates(keys: seq<string>, m: RowImage) {
    NoDuplicates(keys) && (forall k | k in keys :: k in m) && (forall k | k in m :: k in keys)
  }

  /** Records pushed by the first loop after it has visited `keys`. */
  function ChangedRecords(oldImg: RowImage, newImg: RowImage, keys: seq<string>): seq<Change>
    requires forall k :: k in keys ==> k in newImg
  {
    if keys == [] then []
    else
      var k := keys[|keys| - 1];
      ChangedRecords(oldImg, newImg, keys[..|keys| - 1])
        + (if Differs(oldImg, newImg, k) then [Changed(k, Get(oldImg, k), newImg[k])] else [])
  }

  /** Records pushed by the second loop after it has visited `keys`. */
  function RemovedRecords(oldImg: RowImage, newImg: RowImage, keys: seq<string>): seq<Change>
    requires forall k :: k in keys ==> k in oldImg
  {
    if keys == [] then []
    else
      var k := keys[|keys| - 1];
      RemovedRecords(oldImg, newImg, keys[..|keys| - 1])
        + (if k !in newImg then [Removed(k, oldImg[k])] else [])
  }

  /** All records of the diff, in the order the two loops push them. */
  function Diff(oldImg: RowImage, newImg: RowImage, oldKeys: seq<string>, newKeys: seq<string>): seq<Change>
    requires forall k :: k in newKeys ==> k in newImg
    requires forall k :: k in oldKeys ==> k in oldImg
  {
    ChangedRecords(oldImg, newImg, newKeys) + RemovedRecords(oldImg, newImg, oldKeys)
  }

  /** `changes.length > 0 ? changes.join(", ") : null` */
  function Report(cs: seq<Change>): Option<seq<Change>> {
    if |cs| > 0 then Some(cs) else None
  }

  /**
   * getDiffText: null when either image is missing; otherwise the records
   * of the two loops, or null when there are none.
   */
  method GetDiff(oldData: Option<RowImage>, newData: Option<RowImage>, oldKeys: seq<string>, newKeys: seq<string>)
    returns (r: Option<seq<Change>>)
    requires oldData.Some? ==> Enumerates(oldKeys, oldData.value)
    requires newData.Some? ==> Enumerates(newKeys, newData.value)
    ensures oldData.None? || newData.None? ==> r == None
    ensures oldData.Some? && newData.Some? ==> r == Report(Diff(oldData.value, newData.value, oldKeys, newKeys))
    ensures r.None? <==> (oldData.None? || newData.None? || oldData.value == newData.value)
  {
    if oldData.None? || newData.None? {
      return None;
    }
    var oldImg, newImg := oldData.value, newData.value;
    var changes: seq<Change> := [];
    var i := 0;
    while i < |newKeys|
      invariant 0 <= i <= |newKeys|
      invariant changes == ChangedRecords(oldImg, newImg, newKeys[..i])
    {
      var key := newKeys[i];
      assert newKeys[..i + 1][..i] == newKeys[..i];
      if Differs(oldImg, newImg, key) {
        changes := changes + [Changed(key, Get(oldImg, key), newImg[key])];
      }
      i := i + 1;
    }
    assert newKeys[..i] == newKeys;
    var j := 0;
    while j < |oldKeys|
      invariant 0 <= j <= |oldKeys|
      invariant changes == ChangedRecords(oldImg, newImg, newKeys) + RemovedRecords(oldImg, newImg, oldKeys[..j])
    {
      var key := oldKeys[j];
      assert oldKeys[..j + 1][..j] == oldKeys[..j];
      if key !in newImg {
        changes := changes + [Removed(key, oldImg[key])];
      }
      j := j + 1;
    }
    assert oldKeys[..j] == oldKeys;
    DiffEmptyIff(oldImg, newImg, oldKeys, newKeys);
    r := Report(changes);
  }

  // ---------------------------------------------------------------------------
  // What the records mean, key by key

  /** The last record about key `k`, if any. */
  function RecordFor(cs: seq<Change>, k: string): (r: Option<Change>)
    ensures r.Some? ==> r.value in cs && r.value.key == k
  {
    if cs == [] then None
    else if cs[|cs| - 1].key == k then Some(cs[|cs| - 1])
    else RecordFor(cs[..|cs| - 1], k)
  }

  /** How many records speak about key `k`. */
  function CountFor(cs: seq<Change>, k: string): nat {
    if cs == [] then 0
    else CountFor(cs[..|cs| - 1], k) + (if cs[|cs| - 1].key == k then 1 else 0)
  }

  /**
   * The record the diff should hold for `k`, stated independently of the loops:
   * a key of the new image is reported exactly when its value differs (an
   * absent old value differs), a key found only in the old image is reported
   * as removed, and nothing else is reported.
   */
  function Expected(oldImg: RowImage, newImg: RowImage, k: string): Option<Change> {
    if k in newImg then
      (if Differs(oldImg, newImg, k) then Some(Changed(k, Get(oldImg, k), newImg[k])) else None)
    else if k in oldImg then Some(Removed(k, oldImg[k]))
    else None
  }

  lemma {:induction false} RecordForAppend(a: seq<Change>, b: seq<Change>, k: string)
    ensures RecordFor(a + b, k) == if RecordFor(b, k).Some? then RecordFor(b, k) else RecordFor(a, k)
    decreases |b|
  {
    if b == [] {
      assert a + b == a;
    } else {
      assert (a + b)[..|a + b| - 1] == a + b[..|b| - 1];
      RecordForAppend(a, b[..|b| - 1], k);
    }
  }

  lemma {:induction false} CountForAppend(a: seq<Change>, b: seq<Change>, k: string)
    ensures CountFor(a + b, k) == CountFor(a, k) + CountFor(b, k)
    decreases |b|
  {
    if b == [] {
      assert a + b == a;
    } else {
      assert (a + b)[..|a + b| - 1] == a + b[..|b| - 1];
      CountForAppend(a, b[..|b| - 1], k);
    }
  }

  lemma {:induction false} ChangedRecordsFor(oldImg: RowImage, newImg: RowImage, keys: seq<string>, k: string)
    requires forall k :: k in keys ==> k in newImg
    ensures RecordFor(ChangedRecords(oldImg, newImg, keys), k)
      == if k in keys && Differs(oldImg, newImg, k) then Some(Changed(k, Get(oldImg, k), newImg[k])) else None
  {
    if keys != [] {
      var front, last := keys[..|keys| - 1], keys[|keys| - 1];
      assert keys == front + [last];
      ChangedRecordsFor(oldImg, newImg, front, k);
      var tail := if Differs(oldImg, newImg, last) then [Changed(last, Get(oldImg, last), newImg[last])] else [];
      assert ChangedRecords(oldImg, newImg, keys) == ChangedRecords(oldImg, newImg, front) + tail;
      RecordForAppend(ChangedRecords(oldImg, newImg, front), tail, k);
      assert tail != [] ==> tail[..|tail| - 1] == [];
    }
  }

  lemma {:induction false} ChangedRecordsCount(oldImg: RowImage, newImg: RowImage, keys: seq<string>, k: string)
    requires forall k :: k in keys ==> k in newImg
    ensures CountFor(ChangedRecords(oldImg, newImg, keys), k) <= multiset(keys)[k]
  {
    if keys != [] {
      var front, last := keys[..|keys| - 1], keys[|keys| - 1];
      assert keys == front + [last];
      assert multiset(keys)[k] == multiset(front)[k] + (if last == k then 1 else 0);
      ChangedRecordsCount(oldImg, newImg, front, k);
      var tail := if Differs(oldImg, newImg, last) then [Changed(last, Get(oldImg, last), newImg[last])] else [];
      assert ChangedRecords(oldImg, newImg, keys) == ChangedRecords(oldImg, newImg, front) + tail;
      CountForAppend(ChangedRecords(oldImg, newImg, front), tail, k);
      assert tail != [] ==> tail[..|tail| - 1] == [];
    }
  }

  lemma {:induction false} RemovedRecordsFor(oldImg: RowImage, newImg: RowImage, keys: seq<string>, k: string)
    requires forall k :: k in keys ==> k in oldImg
    ensures RecordFor(RemovedRecords(oldImg, newImg, keys), k)
      == if k in keys && k !in newImg then Some(Removed(k, oldImg[k])) else None
  {
    if keys != [] {
      var front, last := keys[..|keys| - 1], keys[|keys| - 1];
      assert keys == front + [last];
      RemovedRecordsFor(oldImg, newImg, front, k);
      var tail := if last !in newImg then [Removed(last, oldImg[last])] else [];
      assert RemovedRecords(oldImg, newImg, keys) == RemovedRecords(oldImg, newImg, front) + tail;
      RecordForAppend(RemovedRecords(oldImg, newImg, front), tail, k);
      assert tail != [] ==> tail[..|tail| - 1] == [];
    }
  }

  lemma {:induction false} RemovedRecordsCount(oldImg: RowImage, newImg: RowImage, keys: seq<string>, k: string)
    requires forall k :: k in keys ==> k in oldImg
    ensures CountFor(RemovedRecords(oldImg, newImg, keys), k) <= multiset(keys)[k]
  {
    if keys != [] {
      var front, last := keys[..|keys| - 1], keys[|keys| - 1];
      assert keys == front + [last];
      assert multiset(keys)[k] == multiset(front)[k] + (if last == k then 1 else 0);
      RemovedRecordsCount(oldImg, newImg, front, k);
      var tail := if last !in newImg then [Removed(last, oldImg[last])] else [];
      assert RemovedRecords(oldImg, newImg, keys) == RemovedRecords(oldImg, newImg, front) + tail;
      CountForAppend(RemovedRecords(oldImg, newImg, front), tail, k);
      assert tail != [] ==> tail[..|tail| - 1] == [];
    }
  }

  lemma {:induction false} DistinctCount(s: seq<string>, x: string)
    requires NoDuplicates(s)
    ensures multiset(s)[x] <= 1
  {
    if s != [] {
      var front := s[..|s| - 1];
      assert s == front + [s[|s| - 1]];
      DistinctCount(front, x);
      if x == s[|s| - 1] {
        assert x !in front by {
          forall i | 0 <= i < |front| ensures front[i] != x {
            assert front[i] == s[i];
          }
        }
      }
    }
  }

  /**
   * The diff holds, for every key, exactly the record `Expected` names and
   * never two records for one key: each changed key and each removed key is
   * reported once, and a key present in both images is never reported as removed.
   */
  lemma DiffRecords(oldImg: RowImage, newImg: RowImage, oldKeys: seq<string>, newKeys: seq<string>, k: string)
    requires Enumerates(oldKeys, oldImg) && Enumerates(newKeys, newImg)
    ensures RecordFor(Diff(oldImg, newImg, oldKeys, newKeys), k) == Expected(oldImg, newImg, k)
    ensures CountFor(Diff(oldImg, newImg, oldKeys, newKeys), k) <= 1
  {
    var ch, rm := ChangedRecords(oldImg, newImg, newKeys), RemovedRecords(oldImg, newImg, oldKeys);
    ChangedRecordsFor(oldImg, newImg, newKeys, k);
    RemovedRecordsFor(oldImg, newImg, oldKeys, k);
    ChangedRecordsCount(oldImg, newImg, newKeys, k);
    RemovedRecordsCount(oldImg, newImg, oldKeys, k);
    RecordForAppend(ch, rm, k);
    CountForAppend(ch, rm, k);
    DistinctCount(newKeys, k);
    DistinctCount(oldKeys, k);
    if k in newImg {
      assert multiset(oldKeys)[k] == 0 || CountFor(rm, k) == 0 by {
        RemovedNone(oldImg, newImg, oldKeys, k);
      }
    } else {
      assert k !in newKeys;
    }
  }

  lemma {:induction false} RemovedNone(oldImg: RowImage, newImg: RowImage, keys: seq<string>, k: string)
    requires forall k :: k in keys ==> k in oldImg
    requires k in newImg
    ensures CountFor(RemovedRecords(oldImg, newImg, keys), k) == 0
  {
    if keys != [] {
      var front, last := keys[..|keys| - 1], keys[|keys| - 1];
      RemovedNone(oldImg, newImg, front, k);
      var tail := if last !in newImg then [Removed(last, oldImg[last])] else [];
      CountForAppend(RemovedRecords(oldImg, newImg, front), tail, k);
      assert tail != [] ==> tail[..|tail| - 1] == [];
    }
  }

  /** The diff is empty exactly when the two images are equal. */
  lemma DiffEmptyIff(oldImg: RowImage, newImg: RowImage, oldKeys: seq<string>, newKeys: seq<string>)
    requires Enumerates(oldKeys, oldImg) && Enumerates(newKeys, newImg)
    ensures Diff(oldImg, newImg, oldKeys, newKeys) == [] <==> oldImg == newImg
  {
    var d := Diff(oldImg, newImg, oldKeys, newKeys);
    if d == [] {
      forall k ensures Get(oldImg, k) == Get(newImg, k) {
        DiffRecords(oldImg, newImg, oldKeys, newKeys, k);
      }
      ImageExtensionality(oldImg, newImg);
    } else {
      var k := d[|d| - 1].key;
      DiffRecords(oldImg, newImg, oldKeys, newKeys, k);
      assert RecordFor(d, k).Some?;
      if k in newImg {
        assert Differs(oldImg, newImg, k);
      }
    }
  }

  // ---------------------------------------------------------------------------
  // The diff as a patch: applied to the old image it gives the new one, and
  // undone on the new image it gives the old one back.

  function ApplyOne(m: RowImage, c: Change): RowImage {
    match c
    case Changed(k, _, after) => m[k := after]
    case Removed(k, _) => m - {k}
  }

  function UndoOne(m: RowImage, c: Change): RowImage {
    match c
    case Changed(k, before, _) => if before.Some? then m[k := before.value] else m - {k}
    case Removed(k, was) => m[k := was]
  }

  function Apply(m: RowImage, cs: seq<Change>): RowImage {
    if cs == [] then m else ApplyOne(Apply(m, cs[..|cs| - 1]), cs[|cs| - 1])
  }

  function Undo(m: RowImage, cs: seq<Change>): RowImage {
    if cs == [] then m else UndoOne(Undo(m, cs[..|cs| - 1]), cs[|cs| - 1])
  }

  lemma {:induction false} ApplyLookup(m: RowImage, cs: seq<Change>, k: string)
    ensures Get(Apply(m, cs), k) == match RecordFor(cs, k)
      case None => Get(m, k)
      case Some(Changed(_, _, after)) => Some(after)
      case Some(Removed(_, _)) => None
  {
    if cs != [] {
      ApplyLookup(m, cs[..|cs| - 1], k);
    }
  }

  lemma {:induction false} UndoLookup(m: RowImage, cs: seq<Change>, k: string)
    ensures Get(Undo(m, cs), k) == match RecordFor(cs, k)
      case None => Get(m, k)
      case Some(Changed(_, before, _)) => before
      case Some(Removed(_, was)) => Some(was)
  {
    if cs != [] {
      UndoLookup(m, cs[..|cs| - 1], k);
    }
  }

  /** Applying the reported changes to the old image yields the new image. */
  lemma ApplyDiffGivesNew(oldImg: RowImage, newImg: RowImage, oldKeys: seq<string>, newKeys: seq<string>)
    requires Enumerates(oldKeys, oldImg) && Enumerates(newKeys, newImg)
    ensures Apply(oldImg, Diff(oldImg, newImg, oldKeys, newKeys)) == newImg
  {
    var d := Diff(oldImg, newImg, oldKeys, newKeys);
    forall k ensures Get(Apply(oldImg, d), k) == Get(newImg, k) {
      DiffRecords(oldImg, newImg, oldKeys, newKeys, k);
      ApplyLookup(oldImg, d, k);
    }
    ImageExtensionality(Apply(oldImg, d), newImg);
  }

  /** Undoing the reported changes on the new image restores the old image. */
  lemma UndoDiffGivesOld(oldImg: RowImage, newImg: RowImage, oldKeys: seq<string>, newKeys: seq<string>)
    requires Enumerates(oldKeys, oldImg) && Enumerates(newKeys, newImg)
    ensures Undo(newImg, Diff(oldImg, newImg, oldKeys, newKeys)) == oldImg
  {
    var d := Diff(oldImg, newImg, oldKeys, newKeys);
    forall k ensures Get(Undo(newImg, d), k) == Get(oldImg, k) {
      DiffRecords(oldImg, newImg, oldKeys, newKeys, k);
      UndoLookup(newImg, d, k);
    }
    ImageExtensionality(Undo(newImg, d), oldImg);
  }
}
