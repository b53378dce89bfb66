/** The help index: topics gathered from every help supplier whose
    lower-cased name contains a lower-cased search key, kept in a vector
    sorted case-insensitively by insertion.

    A help supplier is given by the sequence its topic enumeration yields;
    a topic remembers the index of its supplier. Lower-casing is that of
    the ASCII letters, and `compareTo` is lexicographic order on the
    characters, each a Unicode scalar value here.
 */
module Help {
  import Utils

  /** `new HelpTopic(hs, t)`: the supplier it came from and its name. */
  datatype Topic = Topic(supplier: nat, name: string)

  /** `a.compareTo(b) < 0`: at the first differing position the smaller
      character wins; otherwise the shorter string is smaller. */
  function Less(a: string, b: string): (r: bool)
    ensures r <==> IsProperPrefix(a, b) || exists k :: SmallerAt(a, b, k)
  {
    if a == [] then
      assert b != [] ==> IsProperPrefix(a, b);
      assert forall k :: !SmallerAt(a, b, k);
      b != []
    else if b == [] then
      assert forall k :: !SmallerAt(a, b, k);
      false
    else if a[0] != b[0] then
      assert forall k :: SmallerAt(a, b, k) ==> k == 0;
      assert a[..0] == b[..0];
      assert a[0] < b[0] ==> SmallerAt(a, b, 0);
      a[0] < b[0]
    else
      SmallerAtShift(a, b);
      assert IsProperPrefix(a, b) <==> IsProperPrefix(a[1..], b[1..]);
      Less(a[1..], b[1..])
  }

  /** `a` is a proper prefix of `b`. */
  predicate IsProperPrefix(a: string, b: string) {
    |a| < |b| && a == b[..|a|]
  }

  /** `a` and `b` agree before `k` and `a` has the smaller character at `k`. */
  predicate SmallerAt(a: string, b: string, k: nat) {
    k < |a| && k < |b| && a[..k] == b[..k] && a[k] < b[k]
  }

  /** Past an equal first character, the first difference moves one place. */
  lemma SmallerAtShift(a: string, b: string)
    requires a != [] && b != [] && a[0] == b[0]
    ensures (exists k :: SmallerAt(a, b, k)) <==> (exists k :: SmallerAt(a[1..], b[1..], k))
  {
    forall k: nat | SmallerAt(a, b, k)
      ensures k >= 1 && SmallerAt(a[1..], b[1..], k - 1)
    {
      assert k != 0;
      assert a[..k - 1 + 1] == [a[0]] + a[1..][..k - 1];
      assert b[..k - 1 + 1] == [b[0]] + b[1..][..k - 1];
    }
    forall k: nat | SmallerAt(a[1..], b[1..], k)
      ensures SmallerAt(a, b, k + 1)
    {
      assert a[..k + 1] == [a[0]] + a[1..][..k];
      assert b[..k + 1] == [b[0]] + b[1..][..k];
    }
  }

  lemma {:induction false} LessIrreflexive(a: string)
    ensures !Less(a, a)
  {
    if a != [] {
      LessIrreflexive(a[1..]);
    }
  }

  lemma {:induction false} LessTransitive(a: string, b: string, c: string)
    requires Less(a, b) && Less(b, c)
    ensures Less(a, c)
  {
    if a != [] && b != [] && c != [] && a[0] == b[0] && b[0] == c[0] {
      LessTransitive(a[1..], b[1..], c[1..]);
    }
  }

  /** `compareTo` orders any two different strings. */
  lemma {:induction false} LessTotal(a: string, b: string)
    requires a != b
    ensures Less(a, b) || Less(b, a)
  {
    if a != [] && b != [] && a[0] == b[0] {
      assert a == [a[0]] + a[1..] && b == [b[0]] + b[1..];
      LessTotal(a[1..], b[1..]);
    }
  }

  /** The key a topic is sorted by: `toString().toLowerCase()`. */
  function Key(t: Topic): string {
    Utils.ToLower(t.name)
  }

  /** Every topic's key is at most the key of every later topic. */
  predicate Sorted(v: seq<Topic>) {
    forall i, j :: 0 <= i < j < |v| ==> !Less(Key(v[j]), Key(v[i]))
  }

  /** Where `addSorted` inserts: before the first topic whose key is
      strictly greater than that of `ht`, or at the end. */
  function InsertionPoint(v: seq<Topic>, ht: Topic): (i: nat)
    ensures i <= |v|
    ensures forall j :: 0 <= j < i ==> !Less(Key(ht), Key(v[j]))
    ensures i < |v| ==> Less(Key(ht), Key(v[i]))
  {
    if v == [] || Less(Key(ht), Key(v[0])) then 0 else 1 + InsertionPoint(v[1..], ht)
  }

  /** `v` with `ht` inserted at its insertion point. */
  function Inserted(v: seq<Topic>, ht: Topic): seq<Topic> {
    var i := InsertionPoint(v, ht);
    v[..i] + [ht] + v[i..]
  }

  /** Inserting grows the vector by one, puts `ht` at the insertion point
      and keeps every other topic, in its order, around it. */
  lemma InsertedShape(v: seq<Topic>, ht: Topic)
    ensures var r, i := Inserted(v, ht), InsertionPoint(v, ht);
            |r| == |v| + 1 && r[i] == ht && r[..i] + r[i + 1..] == v
            && multiset(r) == multiset(v) + multiset{ht}
  {
    var r, i := Inserted(v, ht), InsertionPoint(v, ht);
    var front, back := v[..i], v[i..];
    assert r == front + [ht] + back;
    assert r[..i] == front && r[i + 1..] == back;
    assert v == front + back;
    assert multiset(r) == multiset(front) + multiset{ht} + multiset(back);
  }

  /** Inserting into a sorted vector keeps it sorted. */
  lemma InsertedSorted(v: seq<Topic>, ht: Topic)
    requires Sorted(v)
    ensures Sorted(Inserted(v, ht))
  {
    var r := Inserted(v, ht);
    forall p, q | 0 <= p < q < |r|
      ensures !Less(Key(r[q]), Key(r[p]))
    {
      InsertedPairOrdered(v, ht, p, q);
    }
  }

  /** Two positions of the vector after inserting into a sorted one are in
      order. */
  lemma InsertedPairOrdered(v: seq<Topic>, ht: Topic, p: nat, q: nat)
    requires Sorted(v) && p < q < |v| + 1
    ensures var r := Inserted(v, ht);
            |r| == |v| + 1 && !Less(Key(r[q]), Key(r[p]))
  {
    var r, i := Inserted(v, ht), InsertionPoint(v, ht);
    if p < i && q == i {
      assert r[p] == v[p];
    } else if p == i && q > i {
      assert r[q] == v[q - 1];
      assert Less(Key(ht), Key(v[i]));
      if q - 1 > i {
        assert !Less(Key(v[q - 1]), Key(v[i]));
        if Less(Key(v[q - 1]), Key(ht)) {
          LessTransitive(Key(v[q - 1]), Key(ht), Key(v[i]));
        }
      } else {
        LessIrreflexive(Key(ht));
        if Less(Key(v[i]), Key(ht)) {
          LessTransitive(Key(ht), Key(v[i]), Key(ht));
        }
      }
    } else {
      var p', q' := if p < i then p else p - 1, if q < i then q else q - 1;
      assert r[p] == v[p'] && r[q] == v[q'] && p' < q';
    }
  }

  /** Stability: every topic before `ht` has a key at most that of `ht`, and
      every topic after it a strictly greater one, so `ht` lands after the
      topics with an equal key. */
  lemma InsertedStable(v: seq<Topic>, ht: Topic)
    requires Sorted(v)
    ensures var r, i := Inserted(v, ht), InsertionPoint(v, ht);
            (forall j :: 0 <= j < i ==> !Less(Key(ht), Key(r[j])))
            && (forall j :: i < j < |r| ==> Less(Key(ht), Key(r[j])))
  {
    var r, i := Inserted(v, ht), InsertionPoint(v, ht);
    forall j | i < j < |r|
      ensures Less(Key(ht), Key(r[j]))
    {
      assert r[j] == v[j - 1];
      if j - 1 > i {
        assert !Less(Key(v[j - 1]), Key(v[i]));
        if Key(v[j - 1]) == Key(v[i]) {
        } else {
          LessTotal(Key(v[j - 1]), Key(v[i]));
          LessTransitive(Key(ht), Key(v[i]), Key(v[j - 1]));
        }
      }
    }
  }

  /** The vector `addSorted` fills in place. */
  class TopicVector {
    var elems: seq<Topic>

    constructor ()
      ensures elems == []
    {
      elems := [];
    }

    /** `addSorted(v, ht)`: scan for the first topic with a greater key and
        insert before it, or append when there is none. */
    static method AddSorted(v: TopicVector, ht: Topic)
      modifies v
      ensures v.elems == Inserted(old(v.elems), ht)
    {
      var max := |v.elems|;
      var i := 0;
      while i < max
        invariant 0 <= i <= max == |v.elems|
        invariant forall j :: 0 <= j < i ==> !Less(Key(ht), Key(v.elems[j]))
      {
        if Less(Utils.ToLower(ht.name), Utils.ToLower(v.elems[i].name)) {
          break;
        }
        i := i + 1;
      }
      InsertionPointIs(v.elems, ht, i);
      if i >= max {
        v.elems := v.elems + [ht];
      } else {
        v.elems := v.elems[..i] + [ht] + v.elems[i..];
      }
    }
  }

  /** The insertion point is the first index whose key is greater. */
  lemma {:induction false} InsertionPointIs(v: seq<Topic>, ht: Topic, i: nat)
    requires i <= |v|
    requires forall j :: 0 <= j < i ==> !Less(Key(ht), Key(v[j]))
    requires i < |v| ==> Less(Key(ht), Key(v[i]))
    ensures InsertionPoint(v, ht) == i
  {
    if i > 0 {
      assert !Less(Key(ht), Key(v[0]));
      InsertionPointIs(v[1..], ht, i - 1);
    }
  }

  /** A supplier's topics that `findTopics(key)` keeps: all of them when the
      key is null, otherwise those whose lower-cased form contains the
      lower-cased key. */
  predicate Matches(key: Utils.Option<string>, t: string) {
    key.None? || Contains(Utils.ToLower(t), Utils.ToLower(key.value))
  }

  /** The key as `findTopics` keeps it: lower-cased once, up front. */
  function LowerKey(key: Utils.Option<string>): Utils.Option<string> {
    if key.Some? then Utils.Some(Utils.ToLower(key.value)) else Utils.None
  }

  /** The test of the inner loop of `findTopics`, on the lower-cased key. */
  predicate Wanted(k: Utils.Option<string>, t: string) {
    k.None? || Contains(Utils.ToLower(t), k.value)
  }

  /** Lower-casing the key up front tests what `Matches` states. */
  lemma WantedMatches(key: Utils.Option<string>, t: string)
    ensures Wanted(LowerKey(key), t) == Matches(key, t)
  {
  }

  /** `k` occurs in `s` starting at `i`. */
  predicate OccursAt(s: string, k: string, i: int) {
    0 <= i <= |s| - |k| && s[i..i + |k|] == k
  }

  /** `s.indexOf(k) >= 0`. */
  predicate Contains(s: string, k: string) {
    exists i :: 0 <= i <= |s| - |k| && OccursAt(s, k, i)
  }

  /** The matching topics of all suppliers, supplier by supplier, each in
      its enumeration order: the order `findTopics` offers them to
      `addSorted`. */
  function Candidates(suppliers: seq<seq<string>>, key: Utils.Option<string>): seq<Topic>
    decreases |suppliers|
  {
    if suppliers == [] then []
    else
      var n := |suppliers| - 1;
      Candidates(suppliers[..n], key) + MatchingOf(n, suppliers[n], key)
  }

  /** The topics of supplier `si` that match, in enumeration order. */
  function MatchingOf(si: nat, topics: seq<string>, key: Utils.Option<string>): seq<Topic>
  {
    if topics == [] then []
    else
      var n := |topics| - 1;
      MatchingOf(si, topics[..n], key) + (if Matches(key, topics[n]) then [Topic(si, topics[n])] else [])
  }

  /** The matching topics of one supplier are exactly its topics that match. */
  lemma {:induction false} MatchingOfMembers(si: nat, topics: seq<string>, key: Utils.Option<string>, t: Topic)
    ensures t in MatchingOf(si, topics, key) <==> t.supplier == si && t.name in topics && Matches(key, t.name)
  {
    if topics != [] {
      var n := |topics| - 1;
      assert topics == topics[..n] + [topics[n]];
      MatchingOfMembers(si, topics[..n], key, t);
    }
  }

  /** The candidates are exactly the topics of some supplier that match. */
  lemma {:induction false} CandidatesMembers(suppliers: seq<seq<string>>, key: Utils.Option<string>, t: Topic)
    ensures t in Candidates(suppliers, key) <==>
              t.supplier < |suppliers| && t.name in suppliers[t.supplier] && Matches(key, t.name)
    decreases |suppliers|
  {
    if suppliers != [] {
      var n := |suppliers| - 1;
      CandidatesMembers(suppliers[..n], key, t);
      MatchingOfMembers(n, suppliers[n], key, t);
    }
  }

  /** Inserting the topics one after the other into `v`. */
  function InsertAll(v: seq<Topic>, ts: seq<Topic>): seq<Topic>
    decreases |ts|
  {
    if ts == [] then v else InsertAll(Inserted(v, ts[0]), ts[1..])
  }

  lemma {:induction false} InsertAllSorted(v: seq<Topic>, ts: seq<Topic>)
    requires Sorted(v)
    ensures Sorted(InsertAll(v, ts))
    decreases |ts|
  {
    if ts != [] {
      InsertedSorted(v, ts[0]);
      InsertAllSorted(Inserted(v, ts[0]), ts[1..]);
    }
  }

  lemma {:induction false} InsertAllContents(v: seq<Topic>, ts: seq<Topic>)
    ensures multiset(InsertAll(v, ts)) == multiset(v) + multiset(ts)
    decreases |ts|
  {
    if ts != [] {
      InsertedShape(v, ts[0]);
      InsertAllContents(Inserted(v, ts[0]), ts[1..]);
      assert ts == [ts[0]] + ts[1..];
    }
  }

  lemma {:induction false} InsertAllAppend(v: seq<Topic>, ts: seq<Topic>, us: seq<Topic>)
    ensures InsertAll(v, ts + us) == InsertAll(InsertAll(v, ts), us)
    decreases |ts|
  {
    if ts == [] {
      assert ts + us == us;
    } else {
      assert (ts + us)[0] == ts[0] && (ts + us)[1..] == ts[1..] + us;
      InsertAllAppend(Inserted(v, ts[0]), ts[1..], us);
    }
  }

  /** What `findTopics(key)` returns. */
  function Found(suppliers: seq<seq<string>>, key: Utils.Option<string>): seq<Topic> {
    InsertAll([], Candidates(suppliers, key))
  }

  /** The result of `findTopics` is sorted, and it holds each matching
      topic exactly as often as the suppliers offer it. */
  lemma FoundSorted(suppliers: seq<seq<string>>, key: Utils.Option<string>)
    ensures Sorted(Found(suppliers, key))
    ensures multiset(Found(suppliers, key)) == multiset(Candidates(suppliers, key))
  {
    InsertAllSorted([], Candidates(suppliers, key));
    InsertAllContents([], Candidates(suppliers, key));
  }

  /** A topic is found exactly when it belongs to a supplier and matches the key. */
  lemma FoundExactly(suppliers: seq<seq<string>>, key: Utils.Option<string>, t: Topic)
    ensures t in Found(suppliers, key) <==>
              t.supplier < |suppliers| && t.name in suppliers[t.supplier] && Matches(key, t.name)
  {
    FoundSorted(suppliers, key);
    CandidatesMembers(suppliers, key, t);
    assert t in Found(suppliers, key) <==> t in multiset(Found(suppliers, key));
    assert t in Candidates(suppliers, key) <==> t in multiset(Candidates(suppliers, key));
  }

  /** With a null key every topic of every supplier is found. */
  lemma FoundAllWithoutKey(suppliers: seq<seq<string>>, si: nat, name: string)
    requires si < |suppliers| && name in suppliers[si]
    ensures Topic(si, name) in Found(suppliers, Utils.None)
  {
    FoundExactly(suppliers, Utils.None, Topic(si, name));
  }

  /** The help index: the registered suppliers, each as its topics. */
  class Index {
    var suppliers: seq<seq<string>>

    constructor ()
      ensures suppliers == []
    {
      suppliers := [];
    }

    /** `addHelpSupplier(hs)`. */
    method AddHelpSupplier(hs: seq<string>)
      modifies this
      ensures suppliers == old(suppliers) + [hs]
    {
      suppliers := suppliers + [hs];
    }

    /** `findTopics(key)`: every matching topic of every supplier, added
        one by one with `addSorted`. */
    method FindTopics(key: Utils.Option<string>) returns (topics: seq<Topic>)
      ensures topics == Found(suppliers, key)
    {
      var k := LowerKey(key);
      var v := new TopicVector();
      var s := 0;
      while s < |suppliers|
        invariant 0 <= s <= |suppliers|
        invariant v.elems == InsertAll([], Candidates(suppliers[..s], key))
      {
        var ts := suppliers[s];
        ghost var done := Candidates(suppliers[..s], key);
        assert done + MatchingOf(s, ts[..0], key) == done;
        var j := 0;
        while j < |ts|
          invariant 0 <= j <= |ts|
          invariant v.elems == InsertAll([], done + MatchingOf(s, ts[..j], key))
        {
          var t := ts[j];
          ghost var before := v.elems;
          FindStep(done, s, ts, j, key);
          WantedMatches(key, t);
          if Wanted(k, t) {
            TopicVector.AddSorted(v, Topic(s, t));
          }
          assert v.elems == if Matches(key, t) then Inserted(before, Topic(s, t)) else before;
          j := j + 1;
        }
        assert ts[..j] == ts;
        CandidatesStep(suppliers, s, key);
        s := s + 1;
      }
      assert suppliers[..s] == suppliers;
      topics := v.elems;
    }
  }

  /** One supplier of the outer loop of `findTopics`. */
  lemma CandidatesStep(suppliers: seq<seq<string>>, s: nat, key: Utils.Option<string>)
    requires s < |suppliers|
    ensures Candidates(suppliers[..s + 1], key) == Candidates(suppliers[..s], key) + MatchingOf(s, suppliers[s], key)
  {
    assert suppliers[..s + 1][..s] == suppliers[..s];
  }

  /** One topic of the inner loop of `findTopics`: it is inserted exactly
      when it matches. */
  lemma FindStep(done: seq<Topic>, si: nat, ts: seq<string>, j: nat, key: Utils.Option<string>)
    requires j < |ts|
    ensures var before := InsertAll([], done + MatchingOf(si, ts[..j], key));
            InsertAll([], done + MatchingOf(si, ts[..j + 1], key))
            == if Matches(key, ts[j]) then Inserted(before, Topic(si, ts[j])) else before
  {
    var c := done + MatchingOf(si, ts[..j], key);
    var d := if Matches(key, ts[j]) then [Topic(si, ts[j])] else [];
    MatchingStep(si, ts, j, key);
    assert done + MatchingOf(si, ts[..j + 1], key) == c + d;
    InsertAllAppend([], c, d);
    if d != [] {
      assert InsertAll(InsertAll([], c), d) == InsertAll(Inserted(InsertAll([], c), d[0]), []);
    }
  }

  lemma MatchingStep(si: nat, ts: seq<string>, j: nat, key: Utils.Option<string>)
    requires j < |ts|
    ensures MatchingOf(si, ts[..j + 1], key)
            == MatchingOf(si, ts[..j], key) + (if Matches(key, ts[j]) then [Topic(si, ts[j])] else [])
  {
    assert ts[..j + 1][..j] == ts[..j];
  }
}
