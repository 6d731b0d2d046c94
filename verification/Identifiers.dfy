/** Record identifiers and the lexicographic order that std::map and every sort use on them. */
module Identifiers {
  import opened Ordering

  predicate IdLess(a: RecordId, b: RecordId) {
    if b == [] then false
    else if a == [] then true
    else a[0] < b[0] || (a[0] == b[0] && IdLess(a[1..], b[1..]))
  }

  /** Byte by byte: at the first difference the smaller byte decides, and a proper prefix comes first. */
  lemma {:induction false} IdLessDecides(a: RecordId, b: RecordId)
    ensures IdLess(a, b) <==>
      exists i :: 0 <= i <= |a| && i < |b| && a[..i] == b[..i] && (i == |a| || a[i] < b[i])
    decreases |a|
  {
    if a == [] {
      if b != [] { assert a[..0] == b[..0]; }
    } else if b != [] && a[0] == b[0] {
      IdLessDecides(a[1..], b[1..]);
      DecidesBehind(a, b);
    } else if b != [] {
      assert a[..0] == b[..0];
      forall i | 0 < i <= |a| && i < |b| ensures a[..i] != b[..i] {
        assert a[..i][0] != b[..i][0];
      }
    }
  }

  /** An equal first byte moves the deciding place by one. */
  lemma DecidesBehind(a: RecordId, b: RecordId)
    requires a != [] && b != [] && a[0] == b[0]
    ensures (exists i :: 0 <= i <= |a| && i < |b| && a[..i] == b[..i] && (i == |a| || a[i] < b[i]))
      <==> (exists i :: 0 <= i <= |a[1..]| && i < |b[1..]| && a[1..][..i] == b[1..][..i]
                        && (i == |a[1..]| || a[1..][i] < b[1..][i]))
  {
    if i :| 0 <= i <= |a| && i < |b| && a[..i] == b[..i] && (i == |a| || a[i] < b[i]) {
      assert a[1..][..i - 1] == a[..i][1..] && b[1..][..i - 1] == b[..i][1..];
    }
    if i :| 0 <= i <= |a[1..]| && i < |b[1..]| && a[1..][..i] == b[1..][..i]
            && (i == |a[1..]| || a[1..][i] < b[1..][i]) {
      assert a[..i + 1] == [a[0]] + a[1..][..i] && b[..i + 1] == [b[0]] + b[1..][..i];
    }
  }

  lemma {:induction false} IdTrichotomy(a: RecordId, b: RecordId)
    ensures a == b || IdLess(a, b) || IdLess(b, a)
    ensures !(IdLess(a, b) && IdLess(b, a))
  {
    if a != [] && b != [] {
      IdTrichotomy(a[1..], b[1..]);
      assert a == [a[0]] + a[1..] && b == [b[0]] + b[1..];
    }
  }

  lemma {:induction false} IdTransitive(a: RecordId, b: RecordId, c: RecordId)
    requires IdLess(a, b) && IdLess(b, c)
    ensures IdLess(a, c)
  {
    if a != [] && a[0] == b[0] == c[0] {
      IdTransitive(a[1..], b[1..], c[1..]);
    }
  }

  lemma IdOrder()
    ensures StrictTotal(IdLess)
  {
    forall a: RecordId, b: RecordId ensures a == b || IdLess(a, b) || IdLess(b, a) {
      IdTrichotomy(a, b);
    }
    forall a: RecordId ensures !IdLess(a, a) { IdTrichotomy(a, a); }
    forall a: RecordId, b: RecordId, c: RecordId | IdLess(a, b) && IdLess(b, c) ensures IdLess(a, c) {
      IdTransitive(a, b, c);
    }
  }

  /** The keys of a std::map in iteration order. */
  function SortedIds(S: set<RecordId>): (r: seq<RecordId>)
    ensures Enumerates(r, S, IdLess)
    ensures |r| == |S|
  {
    IdOrder();
    Enumerate(S, IdLess)
  }

  lemma SortedIdsListed(S: set<RecordId>)
    ensures Elements(SortedIds(S)) == S && forall i | 0 <= i < |SortedIds(S)| :: SortedIds(S)[i] in S
    ensures Distinct(SortedIds(S))
  {
    IdOrder();
    hide IdLess;
    var ids := SortedIds(S);
    AscendingDistinct(ids, IdLess);
    forall i | 0 <= i < |ids| ensures ids[i] in S { assert ids[i] in ids; }
  }

  predicate NatLess(a: nat, b: nat) { a < b }

  lemma NatOrder()
    ensures StrictTotal(NatLess)
  {
  }
}
