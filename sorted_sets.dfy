/**
 * The Redis sorted sets the store keeps its indexes in: a sorted set maps each
 * member to its score, and ranks members by (score, member). This module gives
 * that rank order and the commands the scripts issue (ZADD, ZREM, ZRANGE,
 * ZREVRANGE) as functions over the map from key to sorted set.
 */
module SortedSets {
  import StringOrder

  /** Scores are modelled as integers (Redis keeps doubles). */
  type Score = int

  type ZSet = map<string, Score>

  /** The sorted sets of a keyspace, by key. */
  type ZSets = map<string, ZSet>

  /** Member `a` with score `sa` ranks before `b` with score `sb`: lower score first, ties by member. */
  predicate Before(sa: Score, a: string, sb: Score, b: string) {
    sa < sb || (sa == sb && StringOrder.Less(a, b))
  }

  /** `a` ranks before `b` in `z`. */
  predicate Precedes(z: ZSet, a: string, b: string) {
    a in z && b in z && Before(z[a], a, z[b], b)
  }

  lemma BeforeTotal(sa: Score, a: string, sb: Score, b: string)
    requires a != b
    ensures Before(sa, a, sb, b) || Before(sb, b, sa, a)
  {
    StringOrder.LessTotal(a, b);
  }

  lemma BeforeAsymmetric(sa: Score, a: string, sb: Score, b: string)
    ensures Before(sa, a, sb, b) ==> !Before(sb, b, sa, a)
  {
    StringOrder.LessAsymmetric(a, b);
  }

  lemma BeforeTransitive(sa: Score, a: string, sb: Score, b: string, sc: Score, c: string)
    requires Before(sa, a, sb, b) && Before(sb, b, sc, c)
    ensures Before(sa, a, sc, c)
  {
    if sa == sb == sc {
      StringOrder.LessTransitive(a, b, c);
    }
  }

  /** `m` is the member of rank 0. */
  predicate IsFirst(z: ZSet, m: string) {
    m in z && forall x :: x in z && x != m ==> Before(z[m], m, z[x], x)
  }

  lemma {:induction false} FirstExists(z: ZSet)
    requires z != map[]
    ensures exists m :: IsFirst(z, m)
    decreases |z|
  {
    var k :| k in z;
    var rest := z - {k};
    assert rest.Keys == z.Keys - {k};
    if !exists x :: x in z && x != k {
      assert IsFirst(z, k);
    } else {
      var y :| y in z && y != k;
      assert y in rest;
      FirstExists(rest);
      var m :| IsFirst(rest, m);
      assert m in z && z[m] == rest[m];
      if Before(z[k], k, z[m], m) {
        forall x | x in z && x != k
          ensures Before(z[k], k, z[x], x)
        {
          if x != m {
            assert x in rest && Before(z[m], m, z[x], x);
            BeforeTransitive(z[k], k, z[m], m, z[x], x);
          }
        }
        assert IsFirst(z, k);
      } else {
        BeforeTotal(z[k], k, z[m], m);
        forall x | x in z && x != m
          ensures Before(z[m], m, z[x], x)
        {
          if x != k {
            assert x in rest;
          }
        }
        assert IsFirst(z, m);
      }
    }
  }

  lemma FirstUnique(z: ZSet)
    ensures forall a, b :: IsFirst(z, a) && IsFirst(z, b) ==> a == b
  {
    forall a, b | IsFirst(z, a) && IsFirst(z, b)
      ensures a == b
    {
      if a != b {
        BeforeAsymmetric(z[a], a, z[b], b);
      }
    }
  }

  /** The member of rank 0 of a non-empty sorted set. */
  function First(z: ZSet): (m: string)
    requires z != map[]
    ensures IsFirst(z, m)
  {
    FirstExists(z);
    FirstUnique(z);
    var m :| IsFirst(z, m);
    m
  }

  /** All members in rank order, as ZRANGE key 0 -1 returns them. */
  function Ranked(z: ZSet): (r: seq<string>)
    ensures |r| == |z|
    decreases |z|
  {
    if z == map[] then []
    else
      var m := First(z);
      assert (z - {m}).Keys == z.Keys - {m};
      [m] + Ranked(z - {m})
  }

  ghost predicate Distinct(s: seq<string>) {
    forall i, j :: 0 <= i < j < |s| ==> s[i] != s[j]
  }

  /** `Ranked` lists exactly the members. */
  lemma {:induction false} RankedMembership(z: ZSet)
    ensures forall x :: x in Ranked(z) <==> x in z
    decreases |z|
  {
    if z != map[] {
      var m := First(z);
      var rest := z - {m};
      assert rest.Keys == z.Keys - {m};
      RankedMembership(rest);
      var r := Ranked(z);
      var rr := Ranked(rest);
      assert r == [m] + rr;
      forall x
        ensures x in r <==> x in z
      {
        assert x in r <==> x == m || x in rr;
      }
    }
  }

  /** `Ranked` lists no member twice. */
  lemma {:induction false} RankedDistinct(z: ZSet)
    ensures Distinct(Ranked(z))
    decreases |z|
  {
    if z != map[] {
      var m := First(z);
      var rest := z - {m};
      assert rest.Keys == z.Keys - {m};
      RankedMembership(rest);
      RankedDistinct(rest);
      var r := Ranked(z);
      var rr := Ranked(rest);
      assert r == [m] + rr;
      forall i, j | 0 <= i < j < |r|
        ensures r[i] != r[j]
      {
        assert r[j] == rr[j - 1] && rr[j - 1] in rest;
        if i > 0 {
          assert r[i] == rr[i - 1];
        }
      }
    }
  }

  /** `Ranked` lists every member exactly once. */
  lemma RankedMembers(z: ZSet)
    ensures forall x :: x in Ranked(z) <==> x in z
    ensures Distinct(Ranked(z))
  {
    RankedMembership(z);
    RankedDistinct(z);
  }

  /** Removing a member keeps the order of the others. */
  lemma PrecedesWithout(z: ZSet, m: string, a: string, b: string)
    requires Precedes(z - {m}, a, b)
    ensures Precedes(z, a, b)
  {
  }

  /** The first member precedes every other member. */
  lemma FirstPrecedes(z: ZSet, x: string)
    requires z != map[] && x in z && x != First(z)
    ensures Precedes(z, First(z), x)
  {
  }

  /** `Ranked` lists the members in (score, member) order. */
  lemma {:induction false} RankedSorted(z: ZSet)
    ensures forall i, j :: 0 <= i < j < |Ranked(z)| ==> Precedes(z, Ranked(z)[i], Ranked(z)[j])
    decreases |z|
  {
    if z != map[] {
      var m := First(z);
      var rest := z - {m};
      assert rest.Keys == z.Keys - {m};
      RankedMembers(rest);
      RankedSorted(rest);
      var r := Ranked(z);
      var rr := Ranked(rest);
      assert r == [m] + rr;
      forall i, j | 0 <= i < j < |r|
        ensures Precedes(z, r[i], r[j])
      {
        assert r[j] == rr[j - 1] && rr[j - 1] in rest;
        if i > 0 {
          assert r[i] == rr[i - 1];
          PrecedesWithout(z, m, rr[i - 1], rr[j - 1]);
        } else {
          FirstPrecedes(z, rr[j - 1]);
        }
      }
    }
  }

  function Reversed(s: seq<string>): (r: seq<string>)
    ensures |r| == |s|
    ensures forall i :: 0 <= i < |s| ==> r[i] == s[|s| - 1 - i]
  {
    if s == [] then [] else Reversed(s[1..]) + [s[0]]
  }

  /** ZREVRANGE order: the rank order reversed, so ties sort by member descending too. */
  function Ordered(z: ZSet, reverse: bool): (r: seq<string>)
    ensures |r| == |z|
  {
    if reverse then Reversed(Ranked(z)) else Ranked(z)
  }

  lemma {:induction false} ReversedMembers(s: seq<string>)
    ensures forall x :: x in Reversed(s) <==> x in s
    ensures Distinct(s) ==> Distinct(Reversed(s))
  {
    if s != [] {
      ReversedMembers(s[1..]);
      assert s == [s[0]] + s[1..];
      var r := Reversed(s);
      if Distinct(s) {
        forall i, j | 0 <= i < j < |r| ensures r[i] != r[j] {
          assert r[i] == s[|s| - 1 - i] && r[j] == s[|s| - 1 - j];
        }
      }
    }
  }

  lemma OrderedMembers(z: ZSet, reverse: bool)
    ensures forall x :: x in Ordered(z, reverse) <==> x in z
    ensures Distinct(Ordered(z, reverse))
  {
    RankedMembers(z);
    ReversedMembers(Ranked(z));
  }

  /** ZRANGE lists by ascending (score, member); ZREVRANGE by descending (score, member). */
  lemma OrderedSorted(z: ZSet, reverse: bool)
    ensures !reverse ==> forall i, j :: 0 <= i < j < |z| ==>
      Precedes(z, Ordered(z, reverse)[i], Ordered(z, reverse)[j])
    ensures reverse ==> forall i, j :: 0 <= i < j < |z| ==>
      Precedes(z, Ordered(z, reverse)[j], Ordered(z, reverse)[i])
  {
    RankedSorted(z);
    if reverse {
      var r, o := Ranked(z), Ordered(z, reverse);
      forall i, j | 0 <= i < j < |z|
        ensures Precedes(z, o[j], o[i])
      {
        assert o[j] == r[|r| - 1 - j] && o[i] == r[|r| - 1 - i];
      }
    }
  }

  /**
   * ZRANGE / ZREVRANGE key start stop with non-negative indexes: the members of
   * ranks start..stop inclusive, a stop past the end being clipped to the end.
   */
  function ZRange(z: ZSet, start: nat, stop: nat, reverse: bool): (r: seq<string>)
    ensures start < |z| && start <= stop ==>
      r == Ordered(z, reverse)[start..if stop < |z| then stop + 1 else |z|]
    ensures start >= |z| || start > stop ==> r == []
  {
    var o := Ordered(z, reverse);
    if start >= |o| || start > stop then []
    else if stop >= |o| then o[start..]
    else o[start..stop + 1]
  }

  /** The sorted set at `key`; a missing key reads as the empty set. */
  function ZOf(zs: ZSets, key: string): ZSet {
    if key in zs then zs[key] else map[]
  }

  /** ZADD key score member: inserts the member or replaces its score. */
  function ZAdd(zs: ZSets, key: string, member: string, score: Score): (r: ZSets)
    ensures r.Keys == zs.Keys + {key}
    ensures r[key] == ZOf(zs, key)[member := score]
    ensures forall k :: k != key && k in zs ==> r[k] == zs[k]
  {
    zs[key := ZOf(zs, key)[member := score]]
  }

  /** ZREM key member; a set left with no member is deleted, as Redis does. */
  function ZRem(zs: ZSets, key: string, member: string): (r: ZSets)
    ensures ZOf(r, key) == ZOf(zs, key) - {member}
    ensures forall k :: k in r ==> r[k] != map[] || (k in zs && zs[k] == map[])
    ensures forall k :: k != key ==> (k in r <==> k in zs) && ZOf(r, k) == ZOf(zs, k)
  {
    if key !in zs then zs
    else if zs[key] - {member} == map[] then zs - {key}
    else zs[key := zs[key] - {member}]
  }

  /** ZADD of `member` into each of `keys` in turn, with the matching score. */
  function ZAddAll(zs: ZSets, keys: seq<string>, member: string, scores: seq<Score>): ZSets
    requires |keys| == |scores|
    decreases |keys|
  {
    if keys == [] then zs
    else
      var n := |keys| - 1;
      ZAdd(ZAddAll(zs, keys[..n], member, scores[..n]), keys[n], member, scores[n])
  }

  /** One more ZADD extends the keys already processed. */
  lemma ZAddAllSnoc(zs: ZSets, keys: seq<string>, member: string, scores: seq<Score>, i: nat)
    requires |keys| == |scores| && i < |keys|
    ensures ZAddAll(zs, keys[..i + 1], member, scores[..i + 1])
         == ZAdd(ZAddAll(zs, keys[..i], member, scores[..i]), keys[i], member, scores[i])
  {
    assert keys[..i + 1][..i] == keys[..i] && scores[..i + 1][..i] == scores[..i];
  }

  /** With distinct keys, each listed set gains the member with its score and nothing else changes. */
  lemma {:induction false} ZAddAllAt(zs: ZSets, keys: seq<string>, member: string, scores: seq<Score>)
    requires |keys| == |scores| && Distinct(keys)
    ensures forall i :: 0 <= i < |keys| ==>
      keys[i] in ZAddAll(zs, keys, member, scores) &&
      ZAddAll(zs, keys, member, scores)[keys[i]] == ZOf(zs, keys[i])[member := scores[i]]
    ensures forall k :: k !in keys ==>
      (k in ZAddAll(zs, keys, member, scores) <==> k in zs) &&
      ZOf(ZAddAll(zs, keys, member, scores), k) == ZOf(zs, k)
    decreases |keys|
  {
    if keys != [] {
      var n := |keys| - 1;
      var front, fronts := keys[..n], scores[..n];
      assert Distinct(front);
      ZAddAllAt(zs, front, member, fronts);
      var prev := ZAddAll(zs, front, member, fronts);
      var r := ZAddAll(zs, keys, member, scores);
      assert r == ZAdd(prev, keys[n], member, scores[n]);
      forall i | 0 <= i < |keys|
        ensures keys[i] in r && r[keys[i]] == ZOf(zs, keys[i])[member := scores[i]]
      {
        if i < n {
          assert front[i] == keys[i] && fronts[i] == scores[i];
          assert keys[i] != keys[n];
        } else {
          assert keys[n] !in front by {
            forall j | 0 <= j < n ensures front[j] != keys[n] {
              assert front[j] == keys[j];
            }
          }
        }
      }
      forall k | k !in keys
        ensures (k in r <==> k in zs) && ZOf(r, k) == ZOf(zs, k)
      {
        assert k !in front && k != keys[n];
      }
    }
  }

  /**
   * ZREM of `member` from each key of `ks` (in any order): the sets keep their
   * other members, emptied sets disappear, keys outside `ks` are untouched.
   */
  function ZRemSet(zs: ZSets, ks: set<string>, member: string): (r: ZSets)
    ensures forall k :: k in ks ==> ZOf(r, k) == ZOf(zs, k) - {member}
    ensures forall k :: k !in ks ==> (k in r <==> k in zs) && ZOf(r, k) == ZOf(zs, k)
  {
    map k | k in zs && !(k in ks && zs[k] - {member} == map[]) ::
      if k in ks then zs[k] - {member} else zs[k]
  }

  /** Two maps with the same keys and the same value at each key are equal. */
  lemma MapsEqual<K, V>(a: map<K, V>, b: map<K, V>)
    requires forall k :: k in a <==> k in b
    requires forall k :: k in a ==> a[k] == b[k]
    ensures a == b
  {
    assert a.Keys == b.Keys;
  }

  /** Before any ZREM, nothing has changed. */
  lemma ZRemSetNone(zs: ZSets, member: string)
    ensures ZRemSet(zs, {}, member) == zs
  {
  }

  /** One more ZREM extends the set of keys already processed. */
  lemma ZRemSetStep(zs: ZSets, ks: set<string>, key: string, member: string)
    requires key !in ks
    ensures ZRem(ZRemSet(zs, ks, member), key, member) == ZRemSet(zs, ks + {key}, member)
  {
    var lhs := ZRem(ZRemSet(zs, ks, member), key, member);
    var rhs := ZRemSet(zs, ks + {key}, member);
    forall k ensures (k in lhs <==> k in rhs) && (k in lhs ==> lhs[k] == rhs[k]) {
      if k == key {
        assert ZOf(lhs, k) == ZOf(rhs, k);
      }
    }
  }
}
