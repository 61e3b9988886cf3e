/**
 * The retention sweeper (src/cleanupLambda.ts): list the bucket once, pick the
 * objects last modified more than thirty minutes ago, and delete them with a
 * single batch request. Failures are rethrown to the scheduler.
 */
module Cleanup {
  import opened Wrappers
  import opened Aws

  /** Thirty minutes, in milliseconds. */
  const RetentionMs: int := 30 * 60 * 1000

  /** The instant before which an object counts as expired. */
  function Cutoff(now: int): (cutoff: int)
    ensures cutoff == now - 1800000
  {
    now - RetentionMs
  }

  /** Selected for deletion: it has a LastModified time, strictly before the cutoff. */
  predicate Expired(o: ObjectSummary, cutoff: int) {
    o.lastModified.Some? && o.lastModified.value < cutoff
  }

  function Keys(contents: seq<ObjectSummary>): (keys: seq<string>)
    ensures |keys| == |contents|
    ensures forall i :: 0 <= i < |contents| ==> keys[i] == contents[i].key
  {
    seq(|contents|, i requires 0 <= i < |contents| => contents[i].key)
  }

  /** `contents.filter(expired).map(o => o.Key)`: the keys of the expired objects, in listing order. */
  function ExpiredKeys(contents: seq<ObjectSummary>, cutoff: int): (keys: seq<string>)
    ensures |keys| <= |contents|
    ensures forall i :: 0 <= i < |contents| && Expired(contents[i], cutoff) ==> contents[i].key in keys
    ensures forall k :: k in keys ==>
      exists i :: 0 <= i < |contents| && contents[i].key == k && Expired(contents[i], cutoff)
    decreases |contents|
  {
    if contents == [] then []
    else
      var rest := ExpiredKeys(contents[1..], cutoff);
      assert forall k :: k in rest ==>
        exists i :: 1 <= i < |contents| && contents[i].key == k && Expired(contents[i], cutoff)
      by {
        forall k | k in rest
          ensures exists i :: 1 <= i < |contents| && contents[i].key == k && Expired(contents[i], cutoff)
        {
          var j :| 0 <= j < |contents[1..]| && contents[1..][j].key == k && Expired(contents[1..][j], cutoff);
          assert contents[j + 1] == contents[1..][j];
        }
      }
      (if Expired(contents[0], cutoff) then [contents[0].key] else []) + rest
  }

  /** `a` can be obtained from `b` by dropping elements. */
  predicate IsSubsequence(a: seq<string>, b: seq<string>)
    decreases |b|
  {
    a == [] || (b != [] && ((a[0] == b[0] && IsSubsequence(a[1..], b[1..])) || IsSubsequence(a, b[1..])))
  }

  /** The batch names listed keys in the order of the listing. */
  lemma {:induction false} ExpiredKeysInListingOrder(contents: seq<ObjectSummary>, cutoff: int)
    ensures IsSubsequence(ExpiredKeys(contents, cutoff), Keys(contents))
    decreases |contents|
  {
    if contents != [] {
      ExpiredKeysInListingOrder(contents[1..], cutoff);
      assert Keys(contents)[1..] == Keys(contents[1..]);
      var keys := ExpiredKeys(contents, cutoff);
      if Expired(contents[0], cutoff) {
        assert keys[1..] == ExpiredKeys(contents[1..], cutoff);
      } else {
        assert keys == ExpiredKeys(contents[1..], cutoff);
      }
    }
  }

  /**
   * With unique keys, as in one S3 listing, an object that is not expired is
   * never named in the batch.
   */
  lemma FreshObjectsUntouched(contents: seq<ObjectSummary>, cutoff: int, i: int)
    requires forall j, k :: 0 <= j < k < |contents| ==> contents[j].key != contents[k].key
    requires 0 <= i < |contents| && !Expired(contents[i], cutoff)
    ensures contents[i].key !in ExpiredKeys(contents, cutoff)
  {
  }

  /** An object exactly thirty minutes old is kept; one a millisecond older is deleted; an undated one is kept. */
  lemma ThirtyMinuteBoundary(key: string, now: int)
    ensures !Expired(ObjectSummary(key, Some(now - 1800000)), Cutoff(now))
    ensures Expired(ObjectSummary(key, Some(now - 1800001)), Cutoff(now))
    ensures !Expired(ObjectSummary(key, None), Cutoff(now))
  {
  }

  /** What is expired now stays expired later. */
  lemma ExpiredIsMonotone(o: ObjectSummary, now: int, later: int)
    requires now <= later && Expired(o, Cutoff(now))
    ensures Expired(o, Cutoff(later))
  {
  }

  /** A later run selects everything an earlier run over the same listing selects, and in the same order. */
  lemma {:induction false} SelectionGrowsWithTime(contents: seq<ObjectSummary>, now: int, later: int)
    requires now <= later
    ensures IsSubsequence(ExpiredKeys(contents, Cutoff(now)), ExpiredKeys(contents, Cutoff(later)))
    decreases |contents|
  {
    if contents != [] {
      SelectionGrowsWithTime(contents[1..], now, later);
      var early := ExpiredKeys(contents, Cutoff(now));
      var late := ExpiredKeys(contents, Cutoff(later));
      if Expired(contents[0], Cutoff(now)) {
        assert early[1..] == ExpiredKeys(contents[1..], Cutoff(now));
        assert late[1..] == ExpiredKeys(contents[1..], Cutoff(later));
      } else if Expired(contents[0], Cutoff(later)) {
        assert early == ExpiredKeys(contents[1..], Cutoff(now));
        assert late[1..] == ExpiredKeys(contents[1..], Cutoff(later));
      } else {
        assert early == ExpiredKeys(contents[1..], Cutoff(now));
        assert late == ExpiredKeys(contents[1..], Cutoff(later));
      }
    }
  }

  /** The listing left once `keys` are deleted, if nothing else changes the bucket. */
  function Without(contents: seq<ObjectSummary>, keys: seq<string>): (rest: seq<ObjectSummary>)
    ensures forall o :: o in rest ==> o in contents && o.key !in keys
    ensures forall o :: o in contents && o.key !in keys ==> o in rest
    decreases |contents|
  {
    if contents == [] then []
    else (if contents[0].key in keys then [] else [contents[0]]) + Without(contents[1..], keys)
  }

  /** A listing with no expired object yields an empty batch. */
  lemma {:induction false} NothingExpiredNoKeys(contents: seq<ObjectSummary>, cutoff: int)
    requires forall i :: 0 <= i < |contents| ==> !Expired(contents[i], cutoff)
    ensures ExpiredKeys(contents, cutoff) == []
    decreases |contents|
  {
    if contents != [] {
      NothingExpiredNoKeys(contents[1..], cutoff);
    }
  }

  /** Sweeping again at the same instant, after a successful delete, deletes nothing. */
  lemma SecondSweepIsNoop(contents: seq<ObjectSummary>, now: int)
    ensures ExpiredKeys(Without(contents, ExpiredKeys(contents, Cutoff(now))), Cutoff(now)) == []
  {
    var rest := Without(contents, ExpiredKeys(contents, Cutoff(now)));
    forall i | 0 <= i < |rest|
      ensures !Expired(rest[i], Cutoff(now))
    {
      assert rest[i] in rest;
    }
    NothingExpiredNoKeys(rest, Cutoff(now));
  }

  /** A sweep at any instant, after a successful delete, names none of the keys already deleted. */
  lemma DeletedKeysNotDeletedAgain(contents: seq<ObjectSummary>, now: int, later: int, k: string)
    requires k in ExpiredKeys(contents, Cutoff(now))
    ensures k !in ExpiredKeys(Without(contents, ExpiredKeys(contents, Cutoff(now))), Cutoff(later))
  {
  }

  /** How a run ends: a normal return, or the rejection of the named call rethrown. */
  datatype Outcome = Returned | Rethrown(failed: Operation)

  datatype Sweep = Sweep(outcome: Outcome, calls: seq<Call>)

  /** One run of the sweeper at instant `now`, as the bucket and the scheduler observe it. */
  function SweepAt(bucket: string, now: int, listing: Option<seq<ObjectSummary>>, failing: set<Operation>): (r: Sweep)
    ensures 1 <= |r.calls| <= 2 && r.calls[0] == ListObjects(bucket)
    ensures |r.calls| == 2 <==>
      ListObjectsOp !in failing && listing.Some? && ExpiredKeys(listing.value, Cutoff(now)) != []
    ensures |r.calls| == 2 ==> r.calls[1] == DeleteObjects(bucket, ExpiredKeys(listing.value, Cutoff(now)))
    ensures r.outcome == Rethrown(ListObjectsOp) <==> ListObjectsOp in failing
    ensures r.outcome == Rethrown(DeleteObjectsOp) <==> |r.calls| == 2 && DeleteObjectsOp in failing
    ensures r.outcome == Returned <==>
      ListObjectsOp !in failing && (|r.calls| == 1 || DeleteObjectsOp !in failing)
  {
    var list := ListObjects(bucket);
    if ListObjectsOp in failing then Sweep(Rethrown(ListObjectsOp), [list])
    else if listing.None? || |listing.value| == 0 then Sweep(Returned, [list])
    else
      var keys := ExpiredKeys(listing.value, Cutoff(now));
      if |keys| == 0 then Sweep(Returned, [list])
      else if DeleteObjectsOp in failing then Sweep(Rethrown(DeleteObjectsOp), [list, DeleteObjects(bucket, keys)])
      else Sweep(Returned, [list, DeleteObjects(bucket, keys)])
  }

  /** A missing or empty listing ends the run after the one list call. */
  lemma NothingListedNothingDeleted(bucket: string, now: int, listing: Option<seq<ObjectSummary>>, failing: set<Operation>)
    requires listing == None || listing == Some([])
    ensures SweepAt(bucket, now, listing, failing).calls == [ListObjects(bucket)]
  {
  }

  /**
   * Objects 10, 35 and 40 minutes old: the 35- and 40-minute ones are deleted
   * in one batch, in listing order, and the 10-minute one is all that is left.
   */
  lemma AgesScenario(bucket: string, now: int)
    ensures var listing := [ObjectSummary("a", Some(now - 600000)),
                            ObjectSummary("b", Some(now - 2100000)),
                            ObjectSummary("c", Some(now - 2400000))];
      SweepAt(bucket, now, Some(listing), {}) == Sweep(Returned, [ListObjects(bucket), DeleteObjects(bucket, ["b", "c"])])
      && Without(listing, ["b", "c"]) == [listing[0]]
  {
    var listing := [ObjectSummary("a", Some(now - 600000)),
                    ObjectSummary("b", Some(now - 2100000)),
                    ObjectSummary("c", Some(now - 2400000))];
    var cutoff := Cutoff(now);
    assert listing[1..][1..][1..] == [];
    assert ExpiredKeys(listing[2..], cutoff) == ["c"];
    assert ExpiredKeys(listing[1..], cutoff) == ["b", "c"];
    assert ExpiredKeys(listing, cutoff) == ["b", "c"];
    assert Without(listing[2..], ["b", "c"]) == [];
    assert Without(listing[1..], ["b", "c"]) == [];
  }

  /** The handler: list once, filter, delete once if anything was selected, rethrow any failure. */
  method Run(env: Cloud, now: int) returns (outcome: Outcome)
    modifies env
    ensures env.trace == old(env.trace) + SweepAt(env.config.bucket, now, env.listing, env.failing).calls
    ensures outcome == SweepAt(env.config.bucket, now, env.listing, env.failing).outcome
  {
    var thirtyMinutesAgo := Cutoff(now);
    var ok, contents := env.List();
    if !ok {
      return Rethrown(ListObjectsOp);
    }
    if contents.None? || |contents.value| == 0 {
      return Returned;
    }
    var keys := ExpiredKeys(contents.value, thirtyMinutesAgo);
    if |keys| > 0 {
      ok := env.Send(DeleteObjects(env.config.bucket, keys));
      if !ok {
        return Rethrown(DeleteObjectsOp);
      }
    }
    return Returned;
  }
}
