/**
 * The durable index-job documents (adapters/elasticsearch/_jobs.py).  A document carries a
 * version number that every write renews; claiming compares it before writing.
 */
module JobStore {
  import opened Common

  type JobId = nat
  type Time = int
  type WorkerId = nat

  datatype Status = Queued | Running | Succeeded | Failed

  datatype Record = Record(
    status: Status,
    submittedAt: Time,
    attempts: nat,
    startedAt: Option<Time>,
    finishedAt: Option<Time>,
    lockedBy: Option<WorkerId>,
    lockExpiresAt: Option<Time>,
    result: Option<Result>,
    errorMessage: Option<string>,
    payload: string)

  /** What an execution reports. */
  datatype Result = Result(job: JobId, succeeded: bool, error: Option<string>)

  /** How a worker ends a job: with a result, or because executing it raised. */
  datatype Ending = Finished(result: Result) | Aborted(error: string)

  datatype Doc = Doc(seqNo: nat, record: Record)

  /** The job-status index; `nextSeq` is the version the next write will get. */
  datatype Index = Index(docs: map<JobId, Doc>, nextSeq: nat)

  /** One search hit: a document as it was when the search ran. */
  datatype Hit = Hit(id: JobId, seqNo: nat, record: Record)

  const NO_JOBS := Index(map[], 0)

  /** A submission: queued, never attempted, not locked. */
  function Submission(submittedAt: Time, payload: string): Record {
    Record(Queued, submittedAt, 0, None, None, None, None, None, None, payload)
  }

  function Write(ix: Index, id: JobId, record: Record): Index {
    Index(ix.docs[id := Doc(ix.nextSeq, record)], ix.nextSeq + 1)
  }

  /** The search condition: queued, or running with a lock that expired before `now`. */
  predicate Claimable(r: Record, now: Time) {
    r.status == Queued || (r.status == Running && r.lockExpiresAt.Some? && r.lockExpiresAt.value < now)
  }

  predicate Fresh(ix: Index, h: Hit) {
    h.id in ix.docs && ix.docs[h.id].seqNo == h.seqNo
  }

  /** The partial update of a claim, merged into the stored record; the attempt count comes from the hit. */
  function ClaimUpdate(stored: Record, hit: Record, worker: WorkerId, now: Time, ttl: Time): Record {
    stored.(status := Running, startedAt := Some(now), lockedBy := Some(worker),
            lockExpiresAt := Some(now + ttl), attempts := hit.attempts + 1)
  }

  /** The partial update that ends a job; only a result overwrites the stored result. */
  function EndUpdate(stored: Record, ending: Ending, now: Time): Record {
    var released := stored.(finishedAt := Some(now), lockedBy := None, lockExpiresAt := None);
    match ending
    case Finished(r) =>
      released.(status := if r.succeeded then Succeeded else Failed, result := Some(r), errorMessage := r.error)
    case Aborted(error) => released.(status := Failed, errorMessage := Some(error))
  }

  /** A successful compare-and-set on a hit. */
  function Claim(ix: Index, h: Hit, worker: WorkerId, now: Time, ttl: Time): Index
    requires Fresh(ix, h)
  {
    Write(ix, h.id, ClaimUpdate(ix.docs[h.id].record, h.record, worker, now, ttl))
  }

  /** The record is finished at `now` and holds no lock; when it was submitted, started and how often tried is as before. */
  predicate Released(before: Record, after: Record, now: Time) {
    && after.finishedAt == Some(now) && after.lockedBy == None && after.lockExpiresAt == None
    && after.submittedAt == before.submittedAt && after.startedAt == before.startedAt
    && after.attempts == before.attempts && after.payload == before.payload
  }

  /** The unconditional update of finish_job and fail_job. */
  function End(ix: Index, id: JobId, ending: Ending, now: Time): Index
    requires id in ix.docs
  {
    Write(ix, id, EndUpdate(ix.docs[id].record, ending, now))
  }

  predicate HitOf(docs: map<JobId, Doc>, h: Hit) {
    h.id in docs && docs[h.id] == Doc(h.seqNo, h.record)
  }

  ghost predicate Listed(id: JobId, hits: seq<Hit>) {
    exists h :: h in hits && h.id == id
  }

  /** What the search may return: the `size` oldest claimable documents, oldest submission first. */
  ghost predicate IsSearchResult(docs: map<JobId, Doc>, now: Time, hits: seq<Hit>, size: nat) {
    && |hits| <= size
    && (forall h :: h in hits ==> HitOf(docs, h) && Claimable(h.record, now))
    && (forall i, j :: 0 <= i < j < |hits| ==>
          hits[i].id != hits[j].id && hits[i].record.submittedAt <= hits[j].record.submittedAt)
    && (forall id :: id in docs && Claimable(docs[id].record, now) && !Listed(id, hits) ==>
          |hits| == size && forall h :: h in hits ==> h.record.submittedAt <= docs[id].record.submittedAt)
  }

  /** The job-status index as the adapter's methods see it, one call at a time. */
  class JobIndex {
    var docs: map<JobId, Doc>
    var nextSeq: nat
    var results: map<JobId, Result>

    ghost function Value(): Index
      reads this
    {
      Index(docs, nextSeq)
    }

    constructor ()
      ensures Value() == NO_JOBS && results == map[]
    {
      docs, nextSeq, results := map[], 0, map[];
    }

    method Put(id: JobId, record: Record)
      modifies `docs, `nextSeq
      ensures Value() == Write(old(Value()), id, record)
    {
      docs := docs[id := Doc(nextSeq, record)];
      nextSeq := nextSeq + 1;
    }

    /**
     * enqueue_job: a queued, running or succeeded job is left alone and its record returned;
     * a failed one is overwritten and a missing one created.
     */
    method EnqueueJob(id: JobId, record: Record) returns (adopted: Record)
      modifies `docs, `nextSeq
      ensures old(id in docs && docs[id].record.status != Failed) ==>
                Value() == old(Value()) && adopted == docs[id].record
      ensures old(id !in docs || docs[id].record.status == Failed) ==>
                Value() == Write(old(Value()), id, record) && adopted == record
      ensures old(id !in docs || docs[id].record.status == Failed) ==>
                docs == old(docs)[id := Doc(old(nextSeq), record)] && nextSeq == old(nextSeq) + 1
    {
      if id in docs && docs[id].record.status in {Queued, Running, Succeeded} {
        return docs[id].record;
      }
      Put(id, record);
      return record;
    }

    /**
     * The claim loop over hits that may have gone stale since the search: the first hit whose
     * version is still current is claimed and the stale ones before it are skipped.
     */
    method ClaimFromHits(hits: seq<Hit>, worker: WorkerId, now: Time, ttl: Time)
      returns (claimed: Option<(JobId, Record)>, ghost k: nat)
      modifies `docs, `nextSeq
      ensures k <= |hits| && forall i :: 0 <= i < k ==> !Fresh(old(Value()), hits[i])
      ensures claimed.None? <==> k == |hits|
      ensures claimed.None? ==> Value() == old(Value())
      ensures claimed.Some? ==>
                && Fresh(old(Value()), hits[k])
                && Value() == Claim(old(Value()), hits[k], worker, now, ttl)
                && claimed.value == (hits[k].id, ClaimUpdate(hits[k].record, hits[k].record, worker, now, ttl))
    {
      k := 0;
      var n := 0;
      while n < |hits|
        invariant n == k <= |hits| && Value() == old(Value())
        invariant forall i :: 0 <= i < k ==> !Fresh(old(Value()), hits[i])
      {
        var h := hits[n];
        if h.id in docs && docs[h.id].seqNo == h.seqNo {
          Put(h.id, ClaimUpdate(docs[h.id].record, h.record, worker, now, ttl));
          return Some((h.id, ClaimUpdate(h.record, h.record, worker, now, ttl))), k;
        }
        n, k := n + 1, k + 1;
      }
      return None, k;
    }

    /**
     * claim_next_job with nobody else at work: it returns nothing exactly when no job is claimable,
     * and otherwise claims a claimable job no other claimable job was submitted before.
     */
    method ClaimNextJob(hits: seq<Hit>, worker: WorkerId, now: Time, ttl: Time)
      returns (claimed: Option<(JobId, Record)>)
      requires IsSearchResult(docs, now, hits, 10)
      modifies `docs, `nextSeq
      ensures claimed.None? <==> forall id :: id in old(docs) ==> !Claimable(old(docs)[id].record, now)
      ensures claimed.None? ==> Value() == old(Value())
      ensures claimed.Some? ==>
                && claimed.value.0 in old(docs)
                && var was := old(docs)[claimed.value.0].record;
                   || was.status == Queued
                   || (was.status == Running && was.lockExpiresAt.Some? && was.lockExpiresAt.value < now)
      ensures claimed.None? ==> forall id :: id in old(docs) ==>
                var was := old(docs)[id].record;
                && was.status != Queued
                && (was.status == Running ==> was.lockExpiresAt.Some? ==> was.lockExpiresAt.value >= now)
      ensures claimed.Some? ==>
                var (id, r) := claimed.value;
                && id in old(docs) && Claimable(old(docs)[id].record, now)
                && (forall j :: j in old(docs) && Claimable(old(docs)[j].record, now) ==>
                      old(docs)[id].record.submittedAt <= old(docs)[j].record.submittedAt)
                && r.status == Running && r.lockedBy == Some(worker) && r.lockExpiresAt == Some(now + ttl)
                && r.startedAt == Some(now) && r.attempts == old(docs)[id].record.attempts + 1
                && r.submittedAt == old(docs)[id].record.submittedAt && r.payload == old(docs)[id].record.payload
                && r.finishedAt == old(docs)[id].record.finishedAt
                && r.result == old(docs)[id].record.result && r.errorMessage == old(docs)[id].record.errorMessage
                && docs == old(docs)[id := Doc(old(nextSeq), r)] && nextSeq == old(nextSeq) + 1
    {
      ghost var k;
      ghost var before := docs;
      OldestFirst(docs, now, hits, 10);
      claimed, k := ClaimFromHits(hits, worker, now, ttl);
    }

    /**
     * finish_job: the result is filed first; the update of a missing document is then refused,
     * which the source reports as an exception.
     */
    method FinishJob(id: JobId, result: Result, now: Time) returns (found: bool)
      modifies this
      ensures results == old(results)[result.job := result]
      ensures found == old(id in docs)
      ensures found ==> Value() == End(old(Value()), id, Finished(result), now)
      ensures found ==>
                && docs[id].record.status == (if result.succeeded then Succeeded else Failed)
                && docs[id].record.result == Some(result) && docs[id].record.errorMessage == result.error
                && Released(old(docs)[id].record, docs[id].record, now)
      ensures found ==> docs.Keys == old(docs).Keys && forall j :: j in docs && j != id ==> docs[j] == old(docs)[j]
      ensures !found ==> Value() == old(Value())
    {
      results := results[result.job := result];
      found := id in docs;
      if found {
        Put(id, EndUpdate(docs[id].record, Finished(result), now));
      }
    }

    method FailJob(id: JobId, error: string, now: Time) returns (found: bool)
      modifies `docs, `nextSeq
      ensures found == old(id in docs)
      ensures found ==> Value() == End(old(Value()), id, Aborted(error), now)
      ensures found ==>
                && docs[id].record.status == Failed
                && docs[id].record.result == old(docs)[id].record.result && docs[id].record.errorMessage == Some(error)
                && Released(old(docs)[id].record, docs[id].record, now)
      ensures found ==> docs.Keys == old(docs).Keys && forall j :: j in docs && j != id ==> docs[j] == old(docs)[j]
      ensures !found ==> Value() == old(Value())
    {
      found := id in docs;
      if found {
        Put(id, EndUpdate(docs[id].record, Aborted(error), now));
      }
    }
  }

  /** With all hits fresh, the first one is the oldest claimable job; no hits means nothing is claimable. */
  lemma OldestFirst(docs: map<JobId, Doc>, now: Time, hits: seq<Hit>, size: nat)
    requires IsSearchResult(docs, now, hits, size) && size > 0
    ensures hits == [] ==> forall id :: id in docs ==> !Claimable(docs[id].record, now)
    ensures hits != [] ==> HitOf(docs, hits[0]) && Claimable(hits[0].record, now)
    ensures hits != [] ==> forall id :: id in docs && Claimable(docs[id].record, now) ==>
              hits[0].record.submittedAt <= docs[id].record.submittedAt
  {
    forall id | id in docs && Claimable(docs[id].record, now)
      ensures hits != [] && hits[0].record.submittedAt <= docs[id].record.submittedAt
    {
      if Listed(id, hits) {
        var h :| h in hits && h.id == id;
        var i :| 0 <= i < |hits| && hits[i] == h;
      } else {
        assert hits[0] in hits;
      }
    }
  }
}
