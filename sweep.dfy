/** `job_cleaner`: one pass of the background sweep that deletes the temporary files and
    the records of jobs that finished long enough ago. The pass visits the registry in
    its iteration order `order`; the surrounding thread (a pass every thirty seconds) is
    `Service.ConversionService.SweepOnce` called repeatedly. */
module Sweep {
  import opened Wrappers
  import opened Jobs

  /** A job is due for removal once it is terminal, stamped, and the timeout (in seconds)
      has elapsed since the stamp (in milliseconds). */
  predicate Expired(j: Job, now: int, timeoutSec: int)
  {
    j.completedTime.Some? && j.status.IsTerminal() && now - j.completedTime.value >= timeoutSec * 1000
  }

  predicate NoDuplicates(ids: seq<JobId>)
  {
    forall i, j :: 0 <= i < j < |ids| ==> ids[i] != ids[j]
  }

  /** `order` lists the registry's keys, each once. */
  predicate IsOrder(order: seq<JobId>, jobs: map<JobId, Job>)
  {
    && NoDuplicates(order)
    && (forall id :: id in order ==> id in jobs)
    && (forall id :: id in jobs ==> id in order)
  }

  /** `jobs_to_cleanup`: the expired jobs, in registry order. */
  function Select(jobs: map<JobId, Job>, order: seq<JobId>, now: int, timeoutSec: int): (sel: seq<JobId>)
    requires forall id :: id in order ==> id in jobs
    ensures forall id :: id in sel <==> id in order && Expired(jobs[id], now, timeoutSec)
    ensures NoDuplicates(order) ==> NoDuplicates(sel)
  {
    if |order| == 0 then []
    else
      var rest := Select(jobs, order[1..], now, timeoutSec);
      assert forall id :: id in order[1..] ==> id in order;
      if Expired(jobs[order[0]], now, timeoutSec) then
        assert NoDuplicates(order) ==> order[0] !in order[1..];
        [order[0]] + rest
      else rest
  }

  /** The selection on one job: the job itself when it has expired, nothing otherwise. */
  lemma SelectOne(jobs: map<JobId, Job>, id: JobId, now: int, timeoutSec: int)
    requires id in jobs
    ensures Select(jobs, [id], now, timeoutSec) == if Expired(jobs[id], now, timeoutSec) then [id] else []
  {
    assert [id][1..] == [];
  }

  /** The selection is a filter: it works part by part and keeps registry order. With
      `SelectOne` this determines `Select` on every order. */
  lemma {:induction false} SelectConcat(jobs: map<JobId, Job>, x: seq<JobId>, y: seq<JobId>, now: int, timeoutSec: int)
    requires forall id :: id in x + y ==> id in jobs
    ensures Select(jobs, x + y, now, timeoutSec) == Select(jobs, x, now, timeoutSec) + Select(jobs, y, now, timeoutSec)
    decreases |x|
  {
    if |x| == 0 {
      assert x + y == y;
    } else {
      assert (x + y)[0] == x[0];
      assert (x + y)[1..] == x[1..] + y;
      assert forall id :: id in x[1..] + y ==> id in x + y;
      SelectConcat(jobs, x[1..], y, now, timeoutSec);
    }
  }

  /** The selection around an expired job: what is selected before it, the job, and what
      is selected after it. */
  lemma SelectAround(jobs: map<JobId, Job>, order: seq<JobId>, now: int, timeoutSec: int, a: nat)
    requires forall id :: id in order ==> id in jobs
    requires a < |order| && Expired(jobs[order[a]], now, timeoutSec)
    ensures Select(jobs, order, now, timeoutSec)
         == Select(jobs, order[..a], now, timeoutSec) + [order[a]] + Select(jobs, order[a + 1..], now, timeoutSec)
  {
    var before, rest, after := order[..a], order[a..], order[a + 1..];
    assert order == before + rest;
    assert rest == [order[a]] + after;
    SelectConcat(jobs, before, rest, now, timeoutSec);
    SelectConcat(jobs, [order[a]], after, now, timeoutSec);
    SelectOne(jobs, order[a], now, timeoutSec);
  }

  /** `x` occurs in `s` at an earlier position than `y`. */
  ghost predicate Precedes(s: seq<JobId>, x: JobId, y: JobId)
  {
    exists i, j :: 0 <= i < j < |s| && s[i] == x && s[j] == y
  }

  /** Of two expired jobs, the one earlier in registry order is selected earlier. */
  lemma SelectKeepsOrder(jobs: map<JobId, Job>, order: seq<JobId>, now: int, timeoutSec: int, a: nat, b: nat)
    requires forall id :: id in order ==> id in jobs
    requires a < b < |order|
    requires Expired(jobs[order[a]], now, timeoutSec) && Expired(jobs[order[b]], now, timeoutSec)
    ensures Precedes(Select(jobs, order, now, timeoutSec), order[a], order[b])
  {
    SelectAround(jobs, order, now, timeoutSec, a);
    var after := order[a + 1..];
    assert order[b] == after[b - a - 1];
    var p := Select(jobs, order[..a], now, timeoutSec);
    var q := Select(jobs, after, now, timeoutSec);
    assert order[b] in q;
    var j' :| 0 <= j' < |q| && q[j'] == order[b];
    PrecedesAcross(p, order[a], q, j');
  }

  lemma PrecedesAcross(p: seq<JobId>, x: JobId, q: seq<JobId>, j: nat)
    requires j < |q|
    ensures Precedes(p + [x] + q, x, q[j])
  {
    var s := p + [x] + q;
    assert s[|p|] == x && s[|p| + 1 + j] == q[j];
  }

  /** How many of the selected jobs the pass gets through. Deleting a record whose id has
      no index entry raises, which ends the pass: the record itself is already gone, the
      ids after it are left for a later pass. */
  function Processed(sel: seq<JobId>, index: map<JobId, IndexEntry>): (n: nat)
    ensures n <= |sel| && (n == 0 <==> |sel| == 0)
    ensures forall k :: 0 <= k < n - 1 ==> sel[k] in index
    ensures n < |sel| ==> sel[n - 1] !in index
    ensures n == |sel| && n > 0 ==> (sel[n - 1] in index <==> forall k :: 0 <= k < |sel| ==> sel[k] in index)
  {
    if |sel| == 0 then 0
    else if sel[0] !in index then 1
    else 1 + Processed(sel[1..], index)
  }

  function IdsOf(ids: seq<JobId>): (r: set<JobId>)
    ensures forall id :: id in r <==> id in ids
  {
    set id | id in ids
  }

  lemma IdsOfPrefix(ids: seq<JobId>, i: nat)
    requires i < |ids|
    ensures IdsOf(ids[..i + 1]) == IdsOf(ids[..i]) + {ids[i]}
  {
    assert ids[..i + 1] == ids[..i] + [ids[i]];
  }

  /** The ids one pass deletes, from both the registry and the index. */
  function Gone(jobs: map<JobId, Job>, index: map<JobId, IndexEntry>, order: seq<JobId>,
                now: int, timeoutSec: int): set<JobId>
    requires forall id :: id in order ==> id in jobs
  {
    var sel := Select(jobs, order, now, timeoutSec);
    set id | id in sel[..Processed(sel, index)]
  }

  /** A path a deleted job names as its input or output; the empty path is skipped. */
  predicate DeadPath(jobs: map<JobId, Job>, gone: set<JobId>, p: Path)
  {
    p != "" && exists id :: id in gone && id in jobs && (jobs[id].inputPath == p || jobs[id].outputPath == p)
  }

  /** The files left once the deleted jobs' files are removed. */
  function Survivors(files: map<Path, nat>, jobs: map<JobId, Job>, gone: set<JobId>): map<Path, nat>
  {
    map p | p in files && !DeadPath(jobs, gone, p) :: files[p]
  }

  /** `if path and os.path.exists(path): os.remove(path)` */
  function RemoveFile(files: map<Path, nat>, p: Path): (r: map<Path, nat>)
    ensures r.Keys == if p != "" then files.Keys - {p} else files.Keys
    ensures forall q :: q in r ==> r[q] == files[q]
  {
    if p != "" && p in files then files - {p} else files
  }

  /** Deleting one more job's files. */
  lemma SurvivorsStep(files: map<Path, nat>, jobs: map<JobId, Job>, gone: set<JobId>, id: JobId)
    requires id in jobs
    ensures Survivors(files, jobs, gone + {id})
         == RemoveFile(RemoveFile(Survivors(files, jobs, gone), jobs[id].inputPath), jobs[id].outputPath)
  {
    var a := Survivors(files, jobs, gone + {id});
    var b := RemoveFile(RemoveFile(Survivors(files, jobs, gone), jobs[id].inputPath), jobs[id].outputPath);
    forall p ensures p in a <==> p in b {
      if p != "" && (jobs[id].inputPath == p || jobs[id].outputPath == p) {
        assert DeadPath(jobs, gone + {id}, p);
      } else if DeadPath(jobs, gone + {id}, p) {
        var g :| g in gone + {id} && g in jobs && (jobs[g].inputPath == p || jobs[g].outputPath == p);
        assert DeadPath(jobs, gone, p);
      }
    }
  }

  /** One pass over the registry. */
  function SweepPass(s: World, order: seq<JobId>, now: int, timeoutSec: int): (r: World)
    requires IsOrder(order, s.jobs)
    ensures var gone := Gone(s.jobs, s.index, order, now, timeoutSec);
      && r.jobs == s.jobs - gone
      && r.index == s.index - gone
      && r.files == Survivors(s.files, s.jobs, gone)
  {
    var gone := Gone(s.jobs, s.index, order, now, timeoutSec);
    World(s.jobs - gone, s.index - gone, Survivors(s.files, s.jobs, gone))
  }

  /** Handling one expired job: its files, its record and its index entry go. */
  function Retired(s: World, id: JobId): (r: World)
    requires id in s.jobs
    ensures r.jobs == s.jobs - {id} && r.index == s.index - {id}
  {
    World(s.jobs - {id}, s.index - {id},
          RemoveFile(RemoveFile(s.files, s.jobs[id].inputPath), s.jobs[id].outputPath))
  }

  /** The state after the first `i` selected jobs have been handled, one after the other. */
  function Partial(s: World, sel: seq<JobId>, i: nat): World
    requires i <= |sel|
  {
    if i == 0 then s
    else
      var p := Partial(s, sel, i - 1);
      if sel[i - 1] in p.jobs then Retired(p, sel[i - 1]) else p
  }

  /** The state after the jobs of `ids` have been handled, in closed form. */
  function Closed(s: World, ids: set<JobId>): World
  {
    World(s.jobs - ids, s.index - ids, Survivors(s.files, s.jobs, ids))
  }

  /** Deleting no job removes no file. */
  lemma SurvivorsNone(files: map<Path, nat>, jobs: map<JobId, Job>)
    ensures Survivors(files, jobs, {}) == files
  {
    assert forall p :: !DeadPath(jobs, {}, p);
  }

  /** Retiring one more job from the closed form gives the closed form with that job. */
  lemma RetiredStep(s: World, gone: set<JobId>, id: JobId)
    requires id in s.jobs && id !in gone
    ensures Retired(Closed(s, gone), id) == Closed(s, gone + {id})
  {
    var p := Closed(s, gone);
    assert p.jobs[id] == s.jobs[id];
    SurvivorsStep(s.files, s.jobs, gone, id);
    assert s.jobs - (gone + {id}) == (s.jobs - gone) - {id};
    assert s.index - (gone + {id}) == (s.index - gone) - {id};
  }

  /** Handling the first `i` jobs one by one deletes exactly those ids and their files. */
  lemma {:induction false} PartialClosed(s: World, sel: seq<JobId>, i: nat)
    requires i <= |sel| && NoDuplicates(sel)
    requires forall id :: id in sel ==> id in s.jobs
    ensures Partial(s, sel, i) == Closed(s, IdsOf(sel[..i]))
  {
    if i == 0 {
      assert IdsOf(sel[..0]) == {};
      SurvivorsNone(s.files, s.jobs);
      assert s.jobs - {} == s.jobs && s.index - {} == s.index;
    } else {
      PartialClosed(s, sel, i - 1);
      PartialStep(s, sel, i);
    }
  }

  /** One more job handled, given the closed form for the jobs before it. */
  lemma PartialStep(s: World, sel: seq<JobId>, i: nat)
    requires 0 < i <= |sel| && NoDuplicates(sel)
    requires forall id :: id in sel ==> id in s.jobs
    requires Partial(s, sel, i - 1) == Closed(s, IdsOf(sel[..i - 1]))
    ensures Partial(s, sel, i) == Closed(s, IdsOf(sel[..i]))
  {
    var gone := IdsOf(sel[..i - 1]);
    var id := sel[i - 1];
    assert id in s.jobs by {
      assert id in sel;
    }
    var before := sel[..i - 1];
    assert id !in gone by {
      forall k | 0 <= k < |before| ensures before[k] != id {
        assert before[k] == sel[k];
      }
    }
    var p := Closed(s, gone);
    assert id in p.jobs;
    assert Partial(s, sel, i) == Retired(p, id);
    IdsOfPrefix(sel, i - 1);
    RetiredStep(s, gone, id);
    assert IdsOf(sel[..i]) == gone + {id};
  }

  /** The next selected job is still registered, its index entry is as at the start,
      and handling it is the next partial state. */
  lemma PartialNext(s: World, sel: seq<JobId>, i: nat)
    requires i < |sel| && NoDuplicates(sel)
    requires forall id :: id in sel ==> id in s.jobs
    ensures var p := Partial(s, sel, i);
      && sel[i] in p.jobs
      && (sel[i] in p.index <==> sel[i] in s.index)
      && Partial(s, sel, i + 1) == Retired(p, sel[i])
  {
    PartialClosed(s, sel, i);
    var before := sel[..i];
    assert sel[i] !in IdsOf(before) by {
      forall k | 0 <= k < |before| ensures before[k] != sel[i] {
        assert before[k] == sel[k];
      }
    }
    assert sel[i] in s.jobs by {
      assert sel[i] in sel;
    }
  }

  /** A pass is its selected jobs handled in order up to and including the first one
      without an index entry. */
  lemma PartialIsPass(s: World, order: seq<JobId>, now: int, timeoutSec: int, i: nat)
    requires IsOrder(order, s.jobs)
    requires var sel := Select(s.jobs, order, now, timeoutSec);
      && i <= |sel|
      && (forall k :: 0 <= k < i - 1 ==> sel[k] in s.index)
      && (i == |sel| || (0 < i && sel[i - 1] !in s.index))
    ensures SweepPass(s, order, now, timeoutSec) == Partial(s, Select(s.jobs, order, now, timeoutSec), i)
  {
    var sel := Select(s.jobs, order, now, timeoutSec);
    var n := Processed(sel, s.index);
    assert n == i;
    PartialClosed(s, sel, i);
  }

  /** Nothing that has not expired is touched, and nothing is rewritten: the registry
      after the pass is a part of the registry before it. */
  lemma SweepKeepsLive(s: World, order: seq<JobId>, now: int, timeoutSec: int)
    requires IsOrder(order, s.jobs)
    ensures var r := SweepPass(s, order, now, timeoutSec);
      && (forall id :: id in r.jobs ==> id in s.jobs && r.jobs[id] == s.jobs[id])
      && (forall id :: id in s.jobs && !Expired(s.jobs[id], now, timeoutSec) ==> id in r.jobs)
      && (forall id :: id in s.index && (id !in s.jobs || !Expired(s.jobs[id], now, timeoutSec)) ==>
            id in r.index && r.index[id] == s.index[id])
  {
    var sel := Select(s.jobs, order, now, timeoutSec);
    assert forall k :: 0 <= k < Processed(sel, s.index) ==> sel[..Processed(sel, s.index)][k] == sel[k];
  }

  /** When every expired job also has an index entry, the pass removes all of them. */
  lemma {:induction false} SweepRemovesExpired(s: World, order: seq<JobId>, now: int, timeoutSec: int)
    requires IsOrder(order, s.jobs)
    requires forall id :: id in s.jobs && Expired(s.jobs[id], now, timeoutSec) ==> id in s.index
    ensures var r := SweepPass(s, order, now, timeoutSec);
      forall id :: id in r.jobs ==> !Expired(r.jobs[id], now, timeoutSec)
  {
    var sel := Select(s.jobs, order, now, timeoutSec);
    var n := Processed(sel, s.index);
    assert forall k :: 0 <= k < |sel| ==> sel[k] in s.index;
    assert n == |sel|;
    assert sel[..n] == sel;
  }

  /** The flip side: the first expired job without an index entry ends the pass; it is
      deleted from the registry, but every expired job after it in the selection, and so
      every expired job after it in registry order, stays. */
  lemma SweepStopsAtMissingEntry(s: World, order: seq<JobId>, now: int, timeoutSec: int, f: nat)
    requires IsOrder(order, s.jobs)
    requires var sel := Select(s.jobs, order, now, timeoutSec);
      f < |sel| && sel[f] !in s.index && forall k :: 0 <= k < f ==> sel[k] in s.index
    ensures var sel := Select(s.jobs, order, now, timeoutSec);
      var r := SweepPass(s, order, now, timeoutSec);
      && sel[f] !in r.jobs
      && (forall k :: f < k < |sel| ==> sel[k] in r.jobs && Expired(r.jobs[sel[k]], now, timeoutSec))
      && (forall a, b :: 0 <= a < b < |order| && order[a] == sel[f] && Expired(s.jobs[order[b]], now, timeoutSec)
            ==> order[b] in r.jobs)
  {
    var sel := Select(s.jobs, order, now, timeoutSec);
    var n := Processed(sel, s.index);
    assert n == f + 1;
    assert sel[..n][f] == sel[f];
    forall k | f < k < |sel| ensures sel[k] !in sel[..n] {
      assert NoDuplicates(sel);
    }
    var r := SweepPass(s, order, now, timeoutSec);
    forall a, b | 0 <= a < b < |order| && order[a] == sel[f] && Expired(s.jobs[order[b]], now, timeoutSec)
      ensures order[b] in r.jobs
    {
      assert sel[f] in sel;
      SelectKeepsOrder(s.jobs, order, now, timeoutSec, a, b);
      var i, j :| 0 <= i < j < |sel| && sel[i] == order[a] && sel[j] == order[b];
      assert i == f;
      assert sel[j] in r.jobs;
    }
  }

  /** A pass with at least one expired job always makes the registry smaller, so repeated
      passes cannot keep the same expired jobs forever. */
  lemma SweepShrinks(s: World, order: seq<JobId>, now: int, timeoutSec: int)
    requires IsOrder(order, s.jobs)
    requires exists id :: id in s.jobs && Expired(s.jobs[id], now, timeoutSec)
    ensures |SweepPass(s, order, now, timeoutSec).jobs| < |s.jobs|
  {
    var sel := Select(s.jobs, order, now, timeoutSec);
    var id :| id in s.jobs && Expired(s.jobs[id], now, timeoutSec);
    assert id in sel;
    var n := Processed(sel, s.index);
    assert sel[..n][0] == sel[0];
    var r := SweepPass(s, order, now, timeoutSec);
    assert sel[0] in s.jobs.Keys && sel[0] !in r.jobs.Keys;
    assert r.jobs.Keys <= s.jobs.Keys;
    assert r.jobs.Keys < s.jobs.Keys;
    SubsetCard(r.jobs.Keys, s.jobs.Keys);
  }

  lemma SubsetCard<T>(a: set<T>, b: set<T>)
    requires a < b
    ensures |a| < |b|
  {
    var x :| x in b && x !in a;
    assert a <= b - {x};
    assert |b - {x}| == |b| - 1;
    SubsetCardLe(a, b - {x});
  }

  lemma {:induction false} SubsetCardLe<T>(a: set<T>, b: set<T>)
    requires a <= b
    ensures |a| <= |b|
    decreases |b|
  {
    if a != {} {
      var x :| x in a;
      SubsetCardLe(a - {x}, b - {x});
    }
  }
}
