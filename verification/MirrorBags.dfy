/** Tables without a primary key (replaceBuckets in pass.go): each differing bucket is emptied and refilled. */
module MirrorBags {
  import opened Ordering
  import opened MirrorDiff
  import opened MirrorTable
  import opened Wrappers

  predicate Chosen(r: Row, w: Window, bs: set<Bucket>) { Sees(w, r) && r.bucket in bs }

  /** The compared rows of the given buckets, and all the other rows. */
  function Pick(s: seq<Row>, w: Window, bs: set<Bucket>): seq<Row> {
    if s == [] then [] else (if Chosen(s[0], w, bs) then [s[0]] else []) + Pick(s[1..], w, bs)
  }

  function Leave(s: seq<Row>, w: Window, bs: set<Bucket>): seq<Row> {
    if s == [] then [] else (if Chosen(s[0], w, bs) then [] else [s[0]]) + Leave(s[1..], w, bs)
  }

  lemma {:induction false} ConcatCount(a: seq<Row>, b: seq<Row>, r: Row)
    ensures multiset(a + b)[r] == multiset(a)[r] + multiset(b)[r]
  {
  }

  lemma {:induction false} HeadCount(s: seq<Row>, r: Row)
    requires s != []
    ensures multiset(s)[r] == multiset(s[1..])[r] + if s[0] == r then 1 else 0
  {
    assert s == [s[0]] + s[1..];
  }

  lemma {:induction false} PickCount(s: seq<Row>, w: Window, bs: set<Bucket>, r: Row)
    ensures multiset(Pick(s, w, bs))[r] == if Chosen(r, w, bs) then multiset(s)[r] else 0
  {
    if s != [] {
      hide Chosen;
      PickCount(s[1..], w, bs, r);
      HeadCount(s, r);
      ConcatCount(if Chosen(s[0], w, bs) then [s[0]] else [], Pick(s[1..], w, bs), r);
    }
  }

  lemma {:induction false} LeaveCount(s: seq<Row>, w: Window, bs: set<Bucket>, r: Row)
    ensures multiset(Leave(s, w, bs))[r] == if Chosen(r, w, bs) then 0 else multiset(s)[r]
  {
    if s != [] {
      hide Chosen;
      LeaveCount(s[1..], w, bs, r);
      HeadCount(s, r);
      ConcatCount(if Chosen(s[0], w, bs) then [] else [s[0]], Leave(s[1..], w, bs), r);
    }
  }

  lemma {:induction false} PickOneMore(s: seq<Row>, w: Window, bs: set<Bucket>, b: Bucket)
    requires b !in bs
    ensures |Pick(s, w, bs + {b})| == |Pick(s, w, bs)| + |Pick(s, w, {b})|
  {
    if s != [] { PickOneMore(s[1..], w, bs, b); }
  }

  function BagBuckets(s: seq<Row>, w: Window): set<Bucket> {
    set r | r in s && Sees(w, r) :: r.bucket
  }

  function BagFingerprints(s: seq<Row>, w: Window): map<Bucket, Fingerprint<multiset<Row>>> {
    map b | b in BagBuckets(s, w) :: Fingerprint(|Pick(s, w, {b})|, multiset(Pick(s, w, {b})))
  }

  // ---- one pass ----

  /** The table fails as a whole and is rolled back to its savepoint: no rows from production, or one bucket's
      statement. */
  datatype BagFault = Smooth | SourceFails | DeleteFails(at: Bucket) | InsertFails(at: Bucket)

  /** `mutedDeletes` and `mutedInserts` are the buckets whose statement reports success and changes nothing. */
  datatype BagEnv = BagEnv(fault: BagFault, mutedDeletes: set<Bucket>, mutedInserts: set<Bucket>)

  const FAIR := BagEnv(Smooth, {}, {})

  /** One table without a key in one pass. */
  datatype BagJob = BagJob(staging: seq<Row>, source: seq<Row>, srcWindow: Window, dstWindow: Window, maxDeletes: nat,
                           env: BagEnv) {
    ghost function Buckets(): set<Bucket> {
      DifferingBuckets(BagFingerprints(source, srcWindow), BagFingerprints(staging, dstWindow))
    }

    ghost predicate Guarded() { |Pick(staging, dstWindow, Buckets())| > maxDeletes }

    /** A bucket without production rows has no insert. */
    predicate FailsAt(b: Bucket) {
      env.fault == DeleteFails(b) || (env.fault == InsertFails(b) && Pick(source, srcWindow, {b}) != [])
    }

    ghost predicate Fails() {
      !Guarded() && exists b :: b in Buckets() && (env.fault.SourceFails? || FailsAt(b))
    }

    /** The buckets whose delete takes effect, also when the table is rolled back afterwards. */
    ghost predicate Empties(b: Bucket) {
      && b in Buckets() && b !in env.mutedDeletes
      && (Fails() ==> match env.fault
                      case DeleteFails(at) => ByteBefore(b, at)
                      case InsertFails(at) => b == at || ByteBefore(b, at)
                      case _ => false)
    }

    ghost function Emptied(): set<Bucket> { set b | b in Buckets() && Empties(b) }

    /** The copies of a row that the statements for the buckets bs leave, and those they add. */
    ghost function Stays(r: Row, bs: set<Bucket>): nat {
      if Sees(dstWindow, r) && r.bucket in bs - env.mutedDeletes then 0 else multiset(staging)[r]
    }

    ghost function Comes(r: Row, bs: set<Bucket>): nat {
      if Sees(srcWindow, r) && r.bucket in bs - env.mutedInserts then multiset(source)[r] else 0
    }
  }

  ghost predicate Replaced(j: BagJob, out: seq<Row>, bs: set<Bucket>) {
    forall r :: multiset(out)[r] == j.Stays(r, bs) + j.Comes(r, bs)
  }

  /** What a pass makes of the table. */
  ghost predicate IsBagOutcome(j: BagJob, out: seq<Row>) {
    if j.Guarded() || j.Fails() then out == j.staging else Replaced(j, out, j.Buckets())
  }

  lemma {:induction false} ReplacedNext(j: BagJob, out: seq<Row>, bs: set<Bucket>, b: Bucket, left: seq<Row>,
                                        next: seq<Row>)
    requires Replaced(j, out, bs) && b !in bs
    requires left == if b in j.env.mutedDeletes then out else Leave(out, j.dstWindow, {b})
    requires next == if b in j.env.mutedInserts then left else left + Pick(j.source, j.srcWindow, {b})
    ensures Replaced(j, next, bs + {b})
  {
    forall r ensures multiset(next)[r] == j.Stays(r, bs + {b}) + j.Comes(r, bs + {b}) {
      LeaveCount(out, j.dstWindow, {b}, r);
      PickCount(j.source, j.srcWindow, {b}, r);
      ConcatCount(left, Pick(j.source, j.srcWindow, {b}), r);
    }
  }

  lemma {:induction false} NothingReplaced(j: BagJob)
    ensures Replaced(j, j.staging, {})
  {
  }

  /** The buckets are emptied and refilled in byte order. */
  lemma {:induction false} ListedBefore(buckets: seq<Bucket>, bs: set<Bucket>, i: nat)
    requires ListsExactly(buckets, bs) && i < |buckets|
    ensures forall b :: b in buckets[..i] <==> b in bs && ByteBefore(b, buckets[i])
    ensures buckets[i] in bs && buckets[i] !in buckets[..i]
    ensures forall b :: b in buckets[..i+1] <==> b in buckets[..i] || b == buckets[i]
  {
    ByteOrderIsStrictTotal();
    ListedOnce(buckets, bs);
    ListedNext(buckets, bs, i);
    hide ByteBefore;
    forall b ensures b in buckets[..i] <==> b in bs && ByteBefore(b, buckets[i]) {
      if b in buckets[..i] {
        var k :| 0 <= k < i && buckets[k] == b;
        assert b in buckets;
      }
      if b in bs && ByteBefore(b, buckets[i]) {
        var k :| 0 <= k < |buckets| && buckets[k] == b;
        if k < i { assert buckets[..i][k] == b; }
      }
    }
  }

  lemma {:induction false} EmptiedSoFar(j: BagJob, done: set<Bucket>, b: Bucket)
    requires j.Fails() && j.FailsAt(b) && b in j.Buckets()
    requires forall x :: x in done <==> x in j.Buckets() && ByteBefore(x, b)
    ensures j.env.fault == DeleteFails(b) ==> j.Emptied() == done - j.env.mutedDeletes
    ensures j.env.fault == InsertFails(b) ==> j.Emptied() == (done + {b}) - j.env.mutedDeletes
  {
    hide BagJob.Fails, BagJob.Buckets, ByteBefore;
  }

  lemma {:induction false} EmptiedAll(j: BagJob)
    requires !j.Fails()
    ensures j.Emptied() == j.Buckets() - j.env.mutedDeletes
  {
    hide BagJob.Fails, BagJob.Buckets, ByteBefore;
  }

  lemma {:induction false} EmptiedNone(j: BagJob)
    requires j.Fails() && j.env.fault.SourceFails?
    ensures j.Emptied() == {}
  {
    hide BagJob.Fails, BagJob.Buckets, ByteBefore;
  }

  /** What the delete of one more bucket counts. */
  ghost function Counted(j: BagJob, out: seq<Row>, b: Bucket): nat {
    if b in j.env.mutedDeletes || j.env.fault == DeleteFails(b) then 0 else |Pick(out, j.dstWindow, {b})|
  }

  ghost function DeletedRows(j: BagJob, done: set<Bucket>): nat {
    |Pick(j.staging, j.dstWindow, done - j.env.mutedDeletes)|
  }

  lemma {:induction false} DeletedNext(j: BagJob, out: seq<Row>, done: set<Bucket>, b: Bucket)
    requires Replaced(j, out, done) && b !in done
    ensures DeletedRows(j, if j.env.fault == DeleteFails(b) then done else done + {b}) ==
            DeletedRows(j, done) + Counted(j, out, b)
  {
    var muted := j.env.mutedDeletes;
    hide Replaced;
    if b in muted {
      assert (done + {b}) - muted == done - muted;
    } else {
      SamePick(j, out, done, b);
      assert (done + {b}) - muted == (done - muted) + {b};
      PickOneMore(j.staging, j.dstWindow, done - muted, b);
    }
  }

  lemma {:induction false} PickFewer(s: seq<Row>, w: Window, few: set<Bucket>, many: set<Bucket>)
    requires few <= many
    ensures |Pick(s, w, few)| <= |Pick(s, w, many)|
  {
    if s != [] { PickFewer(s[1..], w, few, many); }
  }

  /** Empties and refills one bucket. */
  method ReplaceBucket(j: BagJob, out: seq<Row>, b: Bucket, ghost done: set<Bucket>)
    returns (next: seq<Row>, failed: bool, deletes: nat)
    requires Replaced(j, out, done) && b !in done
    ensures failed == j.FailsAt(b) && (!failed ==> Replaced(j, next, done + {b}))
    ensures deletes == Counted(j, out, b)
  {
    hide Pick, Leave, Replaced;
    next, failed, deletes := out, false, 0;
    if j.env.fault == DeleteFails(b) { return out, true, 0; }
    if b !in j.env.mutedDeletes {
      deletes := |Pick(out, j.dstWindow, {b})|;
      next := Leave(out, j.dstWindow, {b});
    }
    ghost var left := next;
    var rows := Pick(j.source, j.srcWindow, {b});
    if j.env.fault == InsertFails(b) && rows != [] { return out, true, deletes; }
    if b !in j.env.mutedInserts { next := next + rows; }
    ReplacedNext(j, out, done, b, left, next);
  }

  /** Empties and refills the differing buckets, unless they hold more staging rows than the limit. A failing statement
      rolls the table back, but the rows deleted until then stay counted. */
  method ReplaceBuckets(j: BagJob) returns (out: seq<Row>, guarded: bool, failed: bool, deletes: nat)
    ensures guarded == j.Guarded() && failed == j.Fails() && IsBagOutcome(j, out)
    ensures deletes == if guarded then 0 else |Pick(j.staging, j.dstWindow, j.Emptied())|
    ensures deletes <= j.maxDeletes
  {
    var buckets := DiffBuckets(BagFingerprints(j.source, j.srcWindow), BagFingerprints(j.staging, j.dstWindow));
    ghost var bs := j.Buckets();
    assert ListsExactly(buckets, bs);
    hide ListsExactly, Pick, Replaced, Sees, BagJob.Buckets, BagFingerprints, BagJob.Emptied, ByteBefore,
      BagJob.FailsAt;
    var rows := CountRows(j.staging, j.dstWindow, buckets, bs);
    if rows > j.maxDeletes { return j.staging, true, false, 0; }
    PickNothing(j.staging, j.dstWindow);
    if buckets != [] && j.env.fault.SourceFails? {
      SomeBucket(j, buckets);
      EmptiedNone(j);
      return j.staging, false, true, 0;
    }
    out, guarded, failed, deletes := j.staging, false, false, 0;
    ghost var done: set<Bucket> := {};
    NothingReplaced(j);
    assert {} - j.env.mutedDeletes == {};
    assert DeletedRows(j, {}) == 0;
    hide DeletedRows, Counted;
    for i := 0 to |buckets|
      invariant forall b :: b in done <==> b in buckets[..i]
      invariant Replaced(j, out, done) && forall b :: b in done ==> !j.FailsAt(b)
      invariant deletes == DeletedRows(j, done)
    {
      var b := buckets[i];
      ListedBefore(buckets, bs, i);
      DeletedNext(j, out, done, b);
      var next, fails, n := ReplaceBucket(j, out, b, done);
      deletes := deletes + n;
      if fails {
        FailedAt(j, done, b);
        return j.staging, false, true, deletes;
      }
      out, done := next, done + {b};
    }
    NoBucketFailed(j, buckets, done);
    EmptiedWithin(j);
    PickFewer(j.staging, j.dstWindow, j.Emptied(), bs);
  }

  /** The pass fails at bucket b, after the buckets before it. */
  lemma {:induction false} FailedAt(j: BagJob, done: set<Bucket>, b: Bucket)
    requires !j.Guarded() && j.FailsAt(b) && b in j.Buckets()
    requires forall x :: x in done <==> x in j.Buckets() && ByteBefore(x, b)
    ensures j.Fails() && |Pick(j.staging, j.dstWindow, j.Emptied())| <= j.maxDeletes
    ensures DeletedRows(j, if j.env.fault == DeleteFails(b) then done else done + {b}) ==
            |Pick(j.staging, j.dstWindow, j.Emptied())|
  {
    EmptiedSoFar(j, done, b);
    EmptiedWithin(j);
    PickFewer(j.staging, j.dstWindow, j.Emptied(), j.Buckets());
    hide Pick, BagJob.Buckets, BagJob.Emptied, ByteBefore;
  }

  lemma {:induction false} SomeBucket(j: BagJob, buckets: seq<Bucket>)
    requires ListsExactly(buckets, j.Buckets()) && buckets != []
    ensures j.Buckets() != {}
  {
    assert buckets[0] in buckets;
  }

  lemma {:induction false} EmptiedWithin(j: BagJob)
    ensures j.Emptied() <= j.Buckets()
  {
  }

  lemma {:induction false} NoBucketFailed(j: BagJob, buckets: seq<Bucket>, done: set<Bucket>)
    requires ListsExactly(buckets, j.Buckets()) && (buckets != [] ==> !j.env.fault.SourceFails?)
    requires forall b :: b in done <==> b in buckets[..|buckets|]
    requires forall b :: b in done ==> !j.FailsAt(b)
    ensures done == j.Buckets() && !j.Fails() && DeletedRows(j, done) == |Pick(j.staging, j.dstWindow, j.Emptied())|
  {
    hide BagJob.Buckets, BagJob.FailsAt, BagJob.Guarded;
    assert buckets[..|buckets|] == buckets;
    EmptiedAll(j);
  }

  lemma {:induction false} PickNothing(s: seq<Row>, w: Window)
    ensures Pick(s, w, {}) == []
  {
    if s != [] { PickNothing(s[1..], w); }
  }

  lemma {:induction false} SamePick(j: BagJob, out: seq<Row>, bs: set<Bucket>, b: Bucket)
    requires Replaced(j, out, bs) && b !in bs
    ensures |Pick(out, j.dstWindow, {b})| == |Pick(j.staging, j.dstWindow, {b})|
  {
    var p, q := Pick(out, j.dstWindow, {b}), Pick(j.staging, j.dstWindow, {b});
    forall r ensures multiset(p)[r] == multiset(q)[r] {
      PickCount(out, j.dstWindow, {b}, r);
      PickCount(j.staging, j.dstWindow, {b}, r);
    }
    hide Pick;
    assert multiset(p) == multiset(q);
    assert |multiset(p)| == |p| && |multiset(q)| == |q|;
  }

  method CountRows(staging: seq<Row>, dw: Window, buckets: seq<Bucket>, ghost bs: set<Bucket>) returns (n: nat)
    requires ListsExactly(buckets, bs)
    ensures n == |Pick(staging, dw, bs)|
  {
    var fd := BagFingerprints(staging, dw);
    n := 0;
    ListedOnce(buckets, bs);
    ghost var done: set<Bucket> := {};
    PickNothing(staging, dw);
    for i := 0 to |buckets|
      invariant forall b :: b in done <==> b in buckets[..i]
      invariant n == |Pick(staging, dw, done)|
    {
      var b := buckets[i];
      assert buckets[..i+1] == buckets[..i] + [b];
      assert b !in done;
      PickOneMore(staging, dw, done, b);
      if b in fd { n := n + fd[b].n; } else { PickAbsent(staging, dw, b); }
      done := done + {b};
    }
    assert buckets[..|buckets|] == buckets;
    assert done == bs;
  }

  lemma {:induction false} PickAbsent(s: seq<Row>, w: Window, b: Bucket)
    requires b !in BagBuckets(s, w)
    ensures Pick(s, w, {b}) == []
  {
    if s != [] {
      assert forall r :: r in s[1..] ==> r in s;
      PickAbsent(s[1..], w, b);
    }
  }

  // ---- what a pass leaves ----

  lemma {:induction false} EqualBucketCounts(j: BagJob, r: Row)
    requires r.bucket !in j.Buckets()
    ensures (if Sees(j.srcWindow, r) then multiset(j.source)[r] else 0) ==
            (if Sees(j.dstWindow, r) then multiset(j.staging)[r] else 0)
  {
    var sw, dw, b := j.srcWindow, j.dstWindow, r.bucket;
    PickCount(j.source, sw, {b}, r);
    PickCount(j.staging, dw, {b}, r);
    BucketAgreesIff(j.source, sw, j.staging, dw, b);
    assert !Differs(BagFingerprints(j.source, sw), BagFingerprints(j.staging, dw), b) by { NotDiffering(j, b); }
  }

  lemma {:induction false} NotDiffering(j: BagJob, b: Bucket)
    ensures b in j.Buckets() <==>
      Differs(BagFingerprints(j.source, j.srcWindow), BagFingerprints(j.staging, j.dstWindow), b)
  {
  }

  /** What a completed pass leaves of a row, in every bucket: the copies staging's window does not show stay, and the
      copies production's window shows are added; a muted delete also leaves the shown ones, and a muted insert adds
      none. */
  lemma {:induction false} BagAfterPass(j: BagJob, out: seq<Row>, r: Row)
    requires Replaced(j, out, j.Buckets())
    ensures multiset(out)[r] ==
      (if Sees(j.dstWindow, r) && r.bucket !in j.Buckets() * j.env.mutedDeletes then 0 else multiset(j.staging)[r]) +
      (if Sees(j.srcWindow, r) && r.bucket !in j.Buckets() * j.env.mutedInserts then multiset(j.source)[r] else 0)
  {
    if r.bucket !in j.Buckets() { EqualBucketCounts(j, r); }
    hide Sees, BagJob.Buckets;
  }

  /** Staging ends with production's rows exactly when what the statements left of each row is what they did not
      bring. */
  lemma {:induction false} BagEqualIff(j: BagJob, out: seq<Row>)
    requires Replaced(j, out, j.Buckets())
    ensures multiset(out) == multiset(j.source) <==>
      forall r :: (if Sees(j.dstWindow, r) && r.bucket !in j.Buckets() * j.env.mutedDeletes then 0
                   else multiset(j.staging)[r]) ==
                  (if Sees(j.srcWindow, r) && r.bucket !in j.Buckets() * j.env.mutedInserts then 0
                   else multiset(j.source)[r])
  {
    forall r { BagAfterPass(j, out, r); }
    hide Sees, Replaced, BagJob.Buckets;
    assert multiset(out) == multiset(j.source) <==> forall r :: multiset(out)[r] == multiset(j.source)[r];
  }

  /** With one cut on both sides and no muted statement, what the window shows becomes production's rows, with their
      multiplicity, and every row outside it stays. */
  lemma {:induction false} BagConverges(j: BagJob, out: seq<Row>, r: Row)
    requires Replaced(j, out, j.Buckets()) && j.srcWindow == j.dstWindow
    requires j.env.mutedDeletes == {} && j.env.mutedInserts == {}
    ensures multiset(out)[r] == if Sees(j.dstWindow, r) then multiset(j.source)[r] else multiset(j.staging)[r]
  {
    BagAfterPass(j, out, r);
    hide Replaced, Sees, BagJob.Buckets;
  }

  /** A hot pass whose staging cut is the later one inserts a row between the cuts again: staging had every copy of it
      that production has, and ends with one more for each of them. The limit on deletes cannot stop it. */
  lemma {:induction false} RowIsDoubled(out: seq<Row>, row: Row, copies: nat, srcCut: int, dstCut: int, maxDeletes: nat)
    requires row.ts.Some? && srcCut <= row.ts.value < dstCut
    requires IsBagOutcome(BagJob(seq(copies, i => row), [row], Since(srcCut), Since(dstCut), maxDeletes, FAIR), out)
    ensures multiset(out)[row] == copies + 1
  {
    var j := BagJob(seq(copies, i => row), [row], Since(srcCut), Since(dstCut), maxDeletes, FAIR);
    assert forall i :: 0 <= i < |j.staging| ==> j.staging[i] == row;
    PickUnseen(j.staging, j.dstWindow, j.Buckets());
    hide Replaced, Pick, BagJob.Buckets;
    BagAfterPass(j, out, row);
    CopiesCount(row, copies);
    assert multiset([row])[row] == 1;
  }

  lemma {:induction false} PickUnseen(s: seq<Row>, w: Window, bs: set<Bucket>)
    requires forall i :: 0 <= i < |s| ==> !Sees(w, s[i])
    ensures Pick(s, w, bs) == []
  {
    if s != [] { PickUnseen(s[1..], w, bs); }
  }

  lemma {:induction false} CopiesCount(row: Row, copies: nat)
    ensures multiset(seq(copies, i => row))[row] == copies
  {
    if copies > 0 {
      CopiesCount(row, copies - 1);
      assert seq(copies, i => row) == [row] + seq(copies - 1, i => row);
    }
  }

  // ---- the read-back ----

  /** A bucket's fingerprints agree exactly when its compared rows do. */
  lemma {:induction false} BucketAgreesIff(s: seq<Row>, v: Window, t: seq<Row>, w: Window, b: Bucket)
    ensures Differs(BagFingerprints(s, v), BagFingerprints(t, w), b) <==>
            multiset(Pick(s, v, {b})) != multiset(Pick(t, w, {b}))
  {
    PickNonEmpty(s, v, b);
    PickNonEmpty(t, w, b);
    var p, q := Pick(s, v, {b}), Pick(t, w, {b});
    assert |multiset(p)| == |p| && |multiset(q)| == |q|;
    hide Pick, BagBuckets;
  }

  lemma {:induction false} PickNonEmpty(s: seq<Row>, w: Window, b: Bucket)
    ensures b in BagBuckets(s, w) <==> Pick(s, w, {b}) != []
  {
    if b !in BagBuckets(s, w) {
      PickAbsent(s, w, b);
    } else {
      var r :| r in s && Sees(w, r) && r.bucket == b;
      PickCount(s, w, {b}, r);
      assert multiset(s)[r] > 0;
    }
  }

  /** What the statements for a differing bucket have to do for the read-back to find production's rows there: staging's
      window shows what production's shows, a muted delete had nothing to delete and a muted insert nothing to
      insert. */
  ghost predicate Lands(j: BagJob, b: Bucket) {
    && (forall r :: r in j.source && r.bucket == b && Sees(j.srcWindow, r) ==> Sees(j.dstWindow, r))
    && (b in j.env.mutedDeletes ==> forall r :: r in j.staging && r.bucket == b ==> !Sees(j.dstWindow, r))
    && (b in j.env.mutedInserts ==> forall r :: r in j.source && r.bucket == b ==> !Sees(j.srcWindow, r))
  }

  /** The compared copies of a row of bucket b, and what the pass makes of them. */
  ghost function Shown(s: seq<Row>, w: Window, b: Bucket, r: Row): nat {
    if r.bucket == b && Sees(w, r) then multiset(s)[r] else 0
  }

  ghost function After(j: BagJob, b: Bucket, r: Row, was: nat, production: nat): nat {
    (if b in j.env.mutedDeletes then was else 0) +
    if b in j.env.mutedInserts || !Sees(j.dstWindow, r) then 0 else production
  }

  lemma {:induction false} ReadBackBucketIff(j: BagJob, out: seq<Row>, b: Bucket)
    requires Replaced(j, out, j.Buckets()) && b in j.Buckets()
    ensures multiset(Pick(j.source, j.srcWindow, {b})) == multiset(Pick(out, j.dstWindow, {b})) <==> Lands(j, b)
  {
    var p, q, was := multiset(Pick(j.source, j.srcWindow, {b})), multiset(Pick(out, j.dstWindow, {b})),
      multiset(Pick(j.staging, j.dstWindow, {b}));
    NotDiffering(j, b);
    BucketAgreesIff(j.source, j.srcWindow, j.staging, j.dstWindow, b);
    hide Pick, BagJob.Buckets, BagFingerprints, Differs;
    forall r
      ensures p[r] == Shown(j.source, j.srcWindow, b, r)
      ensures was[r] == Shown(j.staging, j.dstWindow, b, r)
      ensures q[r] == After(j, b, r, was[r], p[r])
    {
      PickCount(j.source, j.srcWindow, {b}, r);
      PickCount(j.staging, j.dstWindow, {b}, r);
      PickCount(out, j.dstWindow, {b}, r);
    }
    hide Replaced, Sees;
    SameCountsIff(j, p, q, was, b);
  }

  lemma {:induction false} SameCountsIff(j: BagJob, p: multiset<Row>, q: multiset<Row>, was: multiset<Row>, b: Bucket)
    requires p != was
    requires forall r :: p[r] == Shown(j.source, j.srcWindow, b, r) && was[r] == Shown(j.staging, j.dstWindow, b, r)
    requires forall r :: q[r] == After(j, b, r, was[r], p[r])
    ensures p == q <==> Lands(j, b)
  {
    hide Sees;
    if b in j.env.mutedDeletes && b in j.env.mutedInserts { assert q == was; }
    if Lands(j, b) {
      forall r ensures p[r] == q[r] {
        assert r !in j.source ==> multiset(j.source)[r] == 0;
        assert r !in j.staging ==> multiset(j.staging)[r] == 0;
      }
    }
    if p == q { AgreeingLands(j, p, q, was, b); }
  }

  lemma {:induction false} AgreeingLands(j: BagJob, p: multiset<Row>, q: multiset<Row>, was: multiset<Row>, b: Bucket)
    requires p == q && !(b in j.env.mutedDeletes && b in j.env.mutedInserts)
    requires forall r :: p[r] == Shown(j.source, j.srcWindow, b, r) && was[r] == Shown(j.staging, j.dstWindow, b, r)
    requires forall r :: q[r] == After(j, b, r, was[r], p[r])
    ensures Lands(j, b)
  {
    hide Sees;
    forall r | r in j.source && r.bucket == b && Sees(j.srcWindow, r)
      ensures Sees(j.dstWindow, r) && b !in j.env.mutedInserts
    {
      assert p[r] == q[r] && multiset(j.source)[r] > 0;
    }
    forall r | r in j.staging && r.bucket == b && Sees(j.dstWindow, r) ensures b !in j.env.mutedDeletes {
      assert p[r] == q[r] && multiset(j.staging)[r] > 0;
    }
  }

  /** Reading back the buckets that differed finds none exactly when the table was neither refused nor rolled back and
      each of them landed: so a pass that doubled a row, or whose statement changed nothing, does not converge. */
  lemma {:induction false} BagReadBackIff(j: BagJob, out: seq<Row>)
    requires IsBagOutcome(j, out)
    ensures (forall b :: b in j.Buckets() ==>
               !Differs(BagFingerprints(j.source, j.srcWindow), BagFingerprints(out, j.dstWindow), b)) <==>
      !j.Guarded() && !j.Fails() && forall b :: b in j.Buckets() ==> Lands(j, b)
  {
    forall b | b in j.Buckets()
      ensures Differs(BagFingerprints(j.source, j.srcWindow), BagFingerprints(out, j.dstWindow), b) <==>
              j.Guarded() || j.Fails() || !Lands(j, b)
    {
      BucketAgreesIff(j.source, j.srcWindow, out, j.dstWindow, b);
      if j.Guarded() || j.Fails() { NotDiffering(j, b); } else { ReadBackBucketIff(j, out, b); }
    }
    RefusedDiffers(j);
    hide Replaced, Sees, BagJob.Buckets, BagFingerprints, Differs, Lands, BagJob.Guarded, BagJob.Fails;
  }

  lemma {:induction false} RefusedDiffers(j: BagJob)
    ensures j.Guarded() || j.Fails() ==> exists b :: b in j.Buckets()
  {
    if j.Buckets() == {} { PickNothing(j.staging, j.dstWindow); }
  }

  /** Without muted statements the windows alone decide. */
  lemma {:induction false} WindowsDecide(j: BagJob, out: seq<Row>)
    requires Replaced(j, out, j.Buckets()) && !j.Guarded() && !j.Fails()
    requires j.env.mutedDeletes == {} && j.env.mutedInserts == {}
    ensures (forall b :: b in j.Buckets() ==>
               !Differs(BagFingerprints(j.source, j.srcWindow), BagFingerprints(out, j.dstWindow), b)) <==>
      forall r :: r in j.source && Sees(j.srcWindow, r) ==> Sees(j.dstWindow, r)
  {
    BagReadBackIff(j, out);
    forall r | r in j.source && r.bucket !in j.Buckets() ensures Sees(j.srcWindow, r) ==> Sees(j.dstWindow, r) {
      EqualBucketCounts(j, r);
      assert multiset(j.source)[r] > 0;
    }
    hide Replaced, Sees, BagJob.Buckets, BagFingerprints, Differs, BagJob.Guarded, BagJob.Fails;
  }

  /** One bucket with another row on each side, whose delete changes nothing: staging ends with both rows. */
  lemma {:induction false} MutedDeleteKeeps(out: seq<Row>, was: Row, row: Row, w: Window)
    requires was != row && was.bucket == row.bucket && Sees(w, was) && Sees(w, row)
    requires IsBagOutcome(BagJob([was], [row], w, w, 2000, BagEnv(Smooth, {was.bucket}, {})), out)
    ensures multiset(out)[was] == 1 && multiset(out)[row] == 1
  {
    var j := BagJob([was], [row], w, w, 2000, BagEnv(Smooth, {was.bucket}, {}));
    hide Replaced, Pick, BagJob.Buckets, BagJob.Guarded, BagJob.Fails;
    OneBucketDiffers(j, was, row, w);
    SmallIsServed(j);
    BagAfterPass(j, out, was);
    BagAfterPass(j, out, row);
    OneOfEach(was, row);
  }

  lemma {:induction false} OneOfEach(was: Row, row: Row)
    requires was != row
    ensures multiset([was])[was] == multiset([row])[row] == 1 && multiset([was])[row] == multiset([row])[was] == 0
  {
  }

  lemma {:induction false} OneBucketDiffers(j: BagJob, was: Row, row: Row, w: Window)
    requires j.staging == [was] && j.source == [row] && j.srcWindow == j.dstWindow == w
    requires was != row && was.bucket == row.bucket && Sees(w, was) && Sees(w, row)
    ensures was.bucket in j.Buckets()
  {
    hide Pick, BagJob.Buckets, BagFingerprints, Differs, Sees;
    var b := was.bucket;
    PickCount(j.source, w, {b}, row);
    PickCount(j.staging, w, {b}, row);
    BucketAgreesIff(j.source, w, j.staging, w, b);
    NotDiffering(j, b);
    assert multiset([row])[row] == 1 && multiset([was])[row] == 0;
  }

  lemma {:induction false} SmallIsServed(j: BagJob)
    requires j.env.fault.Smooth? && |j.staging| <= j.maxDeletes
    ensures !j.Guarded() && !j.Fails()
  {
    PickAtMost(j.staging, j.dstWindow, j.Buckets());
    hide BagJob.Buckets, Pick;
  }

  lemma {:induction false} PickAtMost(s: seq<Row>, w: Window, bs: set<Bucket>)
    ensures |Pick(s, w, bs)| <= |s|
  {
    if s != [] { PickAtMost(s[1..], w, bs); }
  }

  // ---- an empty answer ----

  /** There is no empty-source guard here: an empty answer empties the table unless it holds more rows than the limit, a
      statement fails, or a delete changes nothing. */
  lemma {:induction false} EmptySourceEmptiesBagIff(j: BagJob, out: seq<Row>)
    requires j.source == [] && j.srcWindow.Everything? && j.dstWindow.Everything? && IsBagOutcome(j, out)
    ensures out == [] <==>
      j.staging == [] ||
      (|j.staging| <= j.maxDeletes && !j.Fails() && forall r :: r in j.staging ==> r.bucket !in j.env.mutedDeletes)
  {
    EveryBucketDiffers(j);
    PickAll(j.staging, Everything, j.Buckets());
    RefusedDiffers(j);
    hide BagJob.Buckets, BagJob.Fails, Pick, Replaced;
    if !j.Guarded() && !j.Fails() {
      forall r { EmptyAnswerLeaves(j, out, r); }
      EmptyIff(out, j.staging, j.env.mutedDeletes);
    }
  }

  lemma {:induction false} EmptyAnswerLeaves(j: BagJob, out: seq<Row>, r: Row)
    requires j.source == [] && j.dstWindow.Everything? && Replaced(j, out, j.Buckets())
    ensures multiset(out)[r] == if r.bucket in j.env.mutedDeletes then multiset(j.staging)[r] else 0
  {
    EveryBucketDiffers(j);
    BagAfterPass(j, out, r);
    hide BagJob.Buckets, Replaced;
    assert r !in j.staging ==> multiset(j.staging)[r] == 0;
  }

  lemma {:induction false} EmptyIff(out: seq<Row>, staging: seq<Row>, muted: set<Bucket>)
    requires forall r :: multiset(out)[r] == if r.bucket in muted then multiset(staging)[r] else 0
    ensures out == [] <==> forall r :: r in staging ==> r.bucket !in muted
  {
    if out != [] {
      assert out[0] in multiset(out);
      assert out[0] in multiset(staging);
    }
    if r :| r in staging && r.bucket in muted {
      assert r in multiset(staging);
      assert r in multiset(out);
    }
  }

  lemma {:induction false} EveryBucketDiffers(j: BagJob)
    requires j.source == [] && j.dstWindow.Everything?
    ensures forall r :: r in j.staging ==> Chosen(r, Everything, j.Buckets())
  {
    forall r | r in j.staging ensures Chosen(r, Everything, j.Buckets()) {
      NotDiffering(j, r.bucket);
      assert r.bucket in BagFingerprints(j.staging, j.dstWindow);
    }
  }

  lemma {:induction false} PickAll(s: seq<Row>, w: Window, bs: set<Bucket>)
    requires forall r :: r in s ==> Chosen(r, w, bs)
    ensures Pick(s, w, bs) == s
  {
    if s != [] { PickAll(s[1..], w, bs); }
  }
}
