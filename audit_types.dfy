/**
 * The records the QuickAudit panel works on: column values, row images,
 * configuration rows and audit-log entries, plus small sequence helpers
 * shared by the other modules.
 */
module AuditTypes {

  datatype Option<+T> = None | Some(value: T)

  /** One column value of a row image: a JSON scalar. */
  datatype Value = Null | Bool(b: bool) | Number(n: int) | Text(s: string)

  /** A row image: column name to value (a JSON object). */
  type RowImage = map<string, Value>

  /** The value stored under key `k`, or None when the key is absent (JavaScript's `undefined`). */
  function Get(m: RowImage, k: string): (r: Option<Value>)
    ensures r.Some? <==> k in m
    ensures r.Some? ==> r.value == m[k]
  {
    if k in m then Some(m[k]) else None
  }

  /** Two images are equal when they agree on every key. */
  lemma ImageExtensionality(a: RowImage, b: RowImage)
    requires forall k :: Get(a, k) == Get(b, k)
    ensures a == b
  {
    forall k | k in a ensures k in b && a[k] == b[k] {
      assert Get(a, k) == Get(b, k);
    }
    forall k | k in b ensures k in a {
      assert Get(a, k) == Get(b, k);
    }
  }

  /** A row of the `quickaudit_config` table. */
  datatype TableAuditConfig = TableAuditConfig(id: nat, tableName: string, auditEnabled: bool, createdAt: int)

  /** A row of the `audit_log` table; an absent `reverted` reads as false. */
  datatype AuditLogEntry = AuditLogEntry(
    id: int,
    tableName: string,
    operation: string,
    rowData: Option<RowImage>,
    oldData: Option<RowImage>,
    userEmail: Option<string>,
    timestamp: int,
    reverted: bool)

  predicate NoDuplicates<T(==)>(s: seq<T>) {
    forall i, j :: 0 <= i < j < |s| ==> s[i] != s[j]
  }

  /** `a` is `b` with some elements dropped and the rest kept in order. */
  predicate IsSubsequence<T(==)>(a: seq<T>, b: seq<T>)
    decreases |b|
  {
    if a == [] then true
    else if b == [] then false
    else if a[|a| - 1] == b[|b| - 1] then IsSubsequence(a[..|a| - 1], b[..|b| - 1])
    else IsSubsequence(a, b[..|b| - 1])
  }

  lemma {:induction false} SubsequenceMembers<T>(a: seq<T>, b: seq<T>)
    requires IsSubsequence(a, b)
    ensures |a| <= |b|
    ensures forall x :: x in a ==> x in b
    decreases |b|
  {
    if a == [] {
    } else if a[|a| - 1] == b[|b| - 1] {
      SubsequenceMembers(a[..|a| - 1], b[..|b| - 1]);
      assert a == a[..|a| - 1] + [a[|a| - 1]];
      assert b == b[..|b| - 1] + [b[|b| - 1]];
    } else {
      SubsequenceMembers(a, b[..|b| - 1]);
      assert b == b[..|b| - 1] + [b[|b| - 1]];
    }
  }

  lemma {:induction false} SubsequenceOfDistinct<T>(a: seq<T>, b: seq<T>)
    requires IsSubsequence(a, b) && NoDuplicates(b)
    ensures NoDuplicates(a)
    decreases |b|
  {
    if a == [] {
    } else if a[|a| - 1] == b[|b| - 1] {
      var a', b' := a[..|a| - 1], b[..|b| - 1];
      SubsequenceOfDistinct(a', b');
      SubsequenceMembers(a', b');
      assert a[|a| - 1] !in b' by {
        forall i | 0 <= i < |b'| ensures b'[i] != b[|b| - 1] {
          assert b'[i] == b[i];
        }
      }
      forall i, j | 0 <= i < j < |a| ensures a[i] != a[j] {
        if j == |a| - 1 {
          assert a[i] == a'[i];
        } else {
          assert a[i] == a'[i] && a[j] == a'[j];
        }
      }
    } else {
      SubsequenceOfDistinct(a, b[..|b| - 1]);
    }
  }

  /** A subsequence of `b` is a subsequence of `b` extended by one element. */
  lemma {:induction false} SubsequenceAppend<T>(a: seq<T>, b: seq<T>, x: T)
    requires IsSubsequence(a, b)
    ensures IsSubsequence(a, b + [x])
    decreases |b|, 1
  {
    var b' := b + [x];
    assert b'[..|b'| - 1] == b;
    if a != [] && a[|a| - 1] == x {
      SubsequenceDropLast(a, b);
    }
  }

  lemma {:induction false} SubsequenceDropLast<T>(a: seq<T>, b: seq<T>)
    requires a != [] && IsSubsequence(a, b)
    ensures IsSubsequence(a[..|a| - 1], b)
    decreases |b|, 0
  {
    var a', front := a[..|a| - 1], b[..|b| - 1];
    assert b == front + [b[|b| - 1]];
    if a' == [] {
    } else if a[|a| - 1] == b[|b| - 1] {
      SubsequenceAppend(a', front, b[|b| - 1]);
    } else {
      SubsequenceDropLast(a, front);
      SubsequenceAppend(a', front, b[|b| - 1]);
    }
  }
}
