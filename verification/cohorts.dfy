/**
 * The group-key index shared by both group revisions: a map from a cohort's
 * identity to the member UIDs filed under it, in insertion order.
 */
module Cohorts {
  import opened StringOrder

  type Index = map<string, seq<string>>

  /** The bucket under `key`, empty when there is none. */
  function Lookup(index: Index, key: string): seq<string> {
    if key in index then index[key] else []
  }

  /** `g.index[guid] = append(g.index[guid], uid)`. */
  function Insert(index: Index, key: string, uid: string): (r: Index)
    ensures r.Keys == index.Keys + {key}
    ensures r[key] == Lookup(index, key) + [uid]
    ensures forall k :: k in index && k != key ==> r[k] == index[k]
    ensures |r| == if key in index then |index| else |index| + 1
  {
    index[key := Lookup(index, key) + [uid]]
  }

  /**
   * The buckets partition `members`: every bucket is non-empty and
   * duplicate-free, holds only members, and every member sits in exactly one
   * bucket.
   */
  predicate Partitions(index: Index, members: set<string>) {
    && (forall k, i :: k in index && 0 <= i < |index[k]| ==> index[k][i] in members)
    && (forall u :: u in members ==> exists k :: k in index && u in index[k])
    && (forall k1, k2, u :: k1 in index && k2 in index && u in index[k1] && u in index[k2] ==> k1 == k2)
    && (forall k :: k in index ==> |index[k]| > 0 && Distinct(index[k]))
  }

  /** Filing a new member under any key keeps the buckets a partition. */
  lemma InsertKeepsPartition(index: Index, members: set<string>, key: string, uid: string)
    requires Partitions(index, members)
    requires uid !in members
    ensures Partitions(Insert(index, key, uid), members + {uid})
  {
    InsertKeepsMembership(index, members, key, uid);
    InsertCoversMembers(index, members, key, uid);
    InsertKeepsBucketsDisjoint(index, members, key, uid);
    InsertKeepsBucketsDistinct(index, members, key, uid);
  }

  lemma InsertKeepsMembership(index: Index, members: set<string>, key: string, uid: string)
    requires Partitions(index, members)
    ensures var r := Insert(index, key, uid);
      forall k, i :: k in r && 0 <= i < |r[k]| ==> r[k][i] in members + {uid}
  {
    var r := Insert(index, key, uid);
    forall k, i | k in r && 0 <= i < |r[k]| ensures r[k][i] in members + {uid} {
      if k == key && i < |Lookup(index, key)| {
        assert r[k][i] == Lookup(index, key)[i];
      }
    }
  }

  lemma InsertCoversMembers(index: Index, members: set<string>, key: string, uid: string)
    requires Partitions(index, members)
    ensures var r := Insert(index, key, uid);
      forall u :: u in members + {uid} ==> exists k :: k in r && u in r[k]
  {
    var r := Insert(index, key, uid);
    forall u | u in members + {uid} ensures exists k :: k in r && u in r[k] {
      if u == uid {
        assert uid in r[key];
      } else {
        var k :| k in index && u in index[k];
        if k == key {
          assert u in r[key];
        } else {
          assert u in r[k];
        }
      }
    }
  }

  lemma InsertKeepsBucketsDisjoint(index: Index, members: set<string>, key: string, uid: string)
    requires Partitions(index, members)
    requires uid !in members
    ensures var r := Insert(index, key, uid);
      forall k1, k2, u :: k1 in r && k2 in r && u in r[k1] && u in r[k2] ==> k1 == k2
  {
    var r := Insert(index, key, uid);
    forall k1, k2, u | k1 in r && k2 in r && u in r[k1] && u in r[k2] ensures k1 == k2 {
      if u != uid {
        assert u in Lookup(index, k1) && u in Lookup(index, k2);
      }
    }
  }

  lemma InsertKeepsBucketsDistinct(index: Index, members: set<string>, key: string, uid: string)
    requires Partitions(index, members)
    requires uid !in members
    ensures var r := Insert(index, key, uid);
      forall k :: k in r ==> |r[k]| > 0 && Distinct(r[k])
  {
    var b := Lookup(index, key);
    FreshOutsideBuckets(index, members, key, uid);
    AppendFreshKeepsDistinct(b, uid);
  }

  /** A member not yet filed is in no bucket. */
  lemma FreshOutsideBuckets(index: Index, members: set<string>, key: string, uid: string)
    requires forall k, i :: k in index && 0 <= i < |index[k]| ==> index[k][i] in members
    requires uid !in members
    ensures uid !in Lookup(index, key)
  {
  }

  /** Appending a fresh member keeps a bucket duplicate-free. */
  lemma AppendFreshKeepsDistinct(b: seq<string>, uid: string)
    requires Distinct(b) && uid !in b
    ensures Distinct(b + [uid])
  {
  }

  /** Every member filed under `index` that `key` knows sits in the bucket `key` assigns it. */
  predicate KeyedBy(index: Index, key: map<string, string>) {
    forall k, i :: k in index && 0 <= i < |index[k]| && index[k][i] in key ==> key[index[k][i]] == k
  }

  /** Filing a member under the bucket `key` assigns it keeps every member in its own bucket. */
  lemma InsertKeepsKeyed(index: Index, key: map<string, string>, uid: string)
    requires KeyedBy(index, key)
    requires uid in key
    ensures KeyedBy(Insert(index, key[uid], uid), key)
  {
    var r := Insert(index, key[uid], uid);
    forall k, i | k in r && 0 <= i < |r[k]| && r[k][i] in key ensures key[r[k][i]] == k {
      if k == key[uid] && i < |Lookup(index, k)| {
        assert r[k][i] == index[k][i];
      }
    }
  }
}
