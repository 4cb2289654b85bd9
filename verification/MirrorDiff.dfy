/**
 * The reflector's diffs (diff.go): bucket fingerprints, keyed rows, and the detector of stray staging writes.
 * A Row is a table row as the reflector compares it. Row hashes and bucket hashes are taken as collision free, so the
 * compared row stands for its own hash and a bucket's rows stand for the bucket's hash.
 */
module MirrorDiff {
  import opened Ordering
  import opened Wrappers

  type Key = string
  type Bucket = string
  datatype Row = Row(bucket: Bucket, ts: Option<int>, body: string)
  type Table = map<Key, Row>
  datatype Mode = Mirror | AppendOnly
  datatype Fingerprint<+D> = Fingerprint(n: nat, md5: D)

  /** What converges one table's compared buckets. */
  datatype Ops = Ops(upsert: seq<Key>, delete: seq<Key>, divergent: nat)

  ghost predicate ListsExactly(s: seq<string>, keys: set<string>) {
    Ascending(s, ByteBefore) && forall k :: k in s <==> k in keys
  }

  predicate Differs<D(==)>(src: map<Bucket, Fingerprint<D>>, dst: map<Bucket, Fingerprint<D>>, b: Bucket) {
    (b in src && (b !in dst || dst[b] != src[b])) || (b in dst && b !in src)
  }

  ghost function DifferingBuckets<D>(src: map<Bucket, Fingerprint<D>>, dst: map<Bucket, Fingerprint<D>>): set<Bucket> {
    set b | b in src.Keys + dst.Keys && Differs(src, dst, b)
  }

  ghost predicate Lists(s: seq<string>, keys: set<string>) {
    NoDuplicates(s) && forall k :: k in s <==> k in keys
  }

  lemma {:induction false} ListsOneMore(s: seq<string>, keys: set<string>, k: string)
    requires Lists(s, keys) && k !in keys
    ensures Lists(s + [k], keys + {k})
  {
    assert k !in s;
  }

  /** A loop over a listing meets each key once. */
  lemma {:induction false} ListedNext(s: seq<string>, keys: set<string>, i: nat)
    requires Lists(s, keys) && i < |s|
    ensures s[i] !in s[..i] && s[i] in keys && forall k :: k in s[..i+1] <==> k in s[..i] || k == s[i]
  {
    assert s[..i+1] == s[..i] + [s[i]];
  }

  lemma {:induction false} ListedAll(s: seq<string>, keys: set<string>)
    requires Lists(s, keys)
    ensures forall k :: k in s[..|s|] <==> k in keys
  {
    assert s[..|s|] == s;
  }

  lemma {:induction false} ListedOnce(s: seq<string>, keys: set<string>)
    requires ListsExactly(s, keys)
    ensures Lists(s, keys)
  {
    ByteOrderIsStrictTotal();
  }

  /** Go visits a map in any order; sorting afterwards makes the result a function of the two maps. */
  method SortStrings(found: seq<string>, ghost keys: set<string>) returns (out: seq<string>)
    requires Lists(found, keys)
    ensures ListsExactly(out, keys)
  {
    ByteOrderIsStrictTotal();
    SortAscends(found, ByteBefore);
    out := Sort(found, ByteBefore);
  }

  method DiffBuckets<D(==)>(src: map<Bucket, Fingerprint<D>>, dst: map<Bucket, Fingerprint<D>>)
    returns (out: seq<Bucket>)
    ensures ListsExactly(out, DifferingBuckets(src, dst))
  {
    out := [];
    ghost var found: set<Bucket> := {};
    var todo := src.Keys;
    while todo != {}
      invariant todo <= src.Keys
      invariant found == (DifferingBuckets(src, dst) * src.Keys) - todo
      invariant Lists(out, found)
    {
      var b :| b in todo;
      todo := todo - {b};
      if b !in dst || dst[b] != src[b] {
        ListsOneMore(out, found, b);
        out, found := out + [b], found + {b};
      }
    }
    todo := dst.Keys;
    while todo != {}
      invariant todo <= dst.Keys
      invariant found == DifferingBuckets(src, dst) - (todo - src.Keys)
      invariant Lists(out, found)
    {
      var b :| b in todo;
      todo := todo - {b};
      if b !in src {
        ListsOneMore(out, found, b);
        out, found := out + [b], found + {b};
      }
    }
    out := SortStrings(out, found);
  }

  predicate MustWrite(src: Table, dst: Table, mode: Mode, k: Key) {
    k in src && (k !in dst || (mode.Mirror? && dst[k] != src[k]))
  }

  predicate MustDelete(src: Table, dst: Table, mode: Mode, k: Key) {
    mode.Mirror? && k in dst && k !in src
  }

  predicate Diverges(src: Table, dst: Table, mode: Mode, k: Key) {
    mode.AppendOnly? && k in dst && (k !in src || dst[k] != src[k])
  }

  ghost function UpsertKeys(src: Table, dst: Table, mode: Mode): set<Key> {
    set k | k in src.Keys && MustWrite(src, dst, mode, k)
  }

  ghost function DeleteKeys(src: Table, dst: Table, mode: Mode): set<Key> {
    set k | k in dst.Keys && MustDelete(src, dst, mode, k)
  }

  ghost function DivergentKeys(src: Table, dst: Table, mode: Mode): set<Key> {
    set k | k in dst.Keys && Diverges(src, dst, mode, k)
  }

  ghost predicate IsDiff(o: Ops, src: Table, dst: Table, mode: Mode) {
    && ListsExactly(o.upsert, UpsertKeys(src, dst, mode))
    && ListsExactly(o.delete, DeleteKeys(src, dst, mode))
    && o.divergent == |DivergentKeys(src, dst, mode)|
  }

  /** The loop over production's rows: what to write, and the differing rows AppendOnly leaves alone. */
  method DiffSourceRows(src: Table, dst: Table, mode: Mode) returns (upsert: seq<Key>, divergent: nat)
    ensures ListsExactly(upsert, UpsertKeys(src, dst, mode))
    ensures divergent == |DivergentKeys(src, dst, mode) * src.Keys|
  {
    upsert, divergent := [], 0;
    ghost var ups: set<Key>, divs: set<Key> := {}, {};
    var todo := src.Keys;
    while todo != {}
      invariant todo <= src.Keys
      invariant Lists(upsert, ups) && divergent == |divs|
      invariant forall k :: k in ups <==> k in src && k !in todo && MustWrite(src, dst, mode, k)
      invariant forall k :: k in divs <==> k in src && k !in todo && Diverges(src, dst, mode, k)
    {
      var k :| k in todo;
      todo := todo - {k};
      if k !in dst {
        ListsOneMore(upsert, ups, k);
        upsert, ups := upsert + [k], ups + {k};
      } else if dst[k] != src[k] {
        if mode == AppendOnly {
          divergent, divs := divergent + 1, divs + {k};
        } else {
          ListsOneMore(upsert, ups, k);
          upsert, ups := upsert + [k], ups + {k};
        }
      }
    }
    assert ups == UpsertKeys(src, dst, mode);
    assert divs == DivergentKeys(src, dst, mode) * src.Keys;
    upsert := SortStrings(upsert, ups);
  }

  /** The loop over staging's rows: what to delete, and the extra rows AppendOnly leaves alone. */
  method DiffExtraRows(src: Table, dst: Table, mode: Mode) returns (delete: seq<Key>, divergent: nat)
    ensures ListsExactly(delete, DeleteKeys(src, dst, mode))
    ensures divergent == |DivergentKeys(src, dst, mode) - src.Keys|
  {
    delete, divergent := [], 0;
    ghost var dels: set<Key>, divs: set<Key> := {}, {};
    var todo := dst.Keys;
    while todo != {}
      invariant todo <= dst.Keys
      invariant Lists(delete, dels) && divergent == |divs|
      invariant forall k :: k in dels <==> k in dst && k !in todo && MustDelete(src, dst, mode, k)
      invariant forall k :: k in divs <==> k in dst && k !in todo && k !in src && Diverges(src, dst, mode, k)
    {
      var k :| k in todo;
      todo := todo - {k};
      if k !in src {
        if mode == AppendOnly {
          divergent, divs := divergent + 1, divs + {k};
        } else {
          ListsOneMore(delete, dels, k);
          delete, dels := delete + [k], dels + {k};
        }
      }
    }
    assert dels == DeleteKeys(src, dst, mode);
    assert divs == DivergentKeys(src, dst, mode) - src.Keys;
    delete := SortStrings(delete, dels);
  }

  /** Compares keyed rows. For AppendOnly only missing keys are written; rows that differ or are extra are counted. */
  method DiffRows(src: Table, dst: Table, mode: Mode) returns (o: Ops)
    ensures IsDiff(o, src, dst, mode)
  {
    var upsert, differing := DiffSourceRows(src, dst, mode);
    var delete, extra := DiffExtraRows(src, dst, mode);
    ghost var d := DivergentKeys(src, dst, mode);
    assert d == d * src.Keys + (d - src.Keys);
    o := Ops(upsert, delete, differing + extra);
  }

  /** Keys the reflector wrote whose production row is still the one it wrote, yet which have to be written again. */
  ghost function Rewritten(upserts: set<Key>, src: Table, lastWritten: Table): set<Key> {
    set k | k in upserts && WroteTheSame(src, lastWritten, k)
  }

  predicate WroteTheSame(src: Table, lastWritten: Table, k: Key) {
    k in src && k in lastWritten && lastWritten[k] == src[k]
  }

  method CountRewritten(upsert: seq<Key>, src: Table, lastWritten: Table, ghost upserts: set<Key>) returns (n: nat)
    requires ListsExactly(upsert, upserts) && upserts <= src.Keys
    ensures n == |Rewritten(upserts, src, lastWritten)|
  {
    n := 0;
    ListedOnce(upsert, upserts);
    hide ListsExactly, Lists;
    ghost var found: set<Key> := {};
    for i := 0 to |upsert|
      invariant forall k :: k in found <==> k in upsert[..i] && WroteTheSame(src, lastWritten, k)
      invariant n == |found|
    {
      var k := upsert[i];
      ListedNext(upsert, upserts, i);
      if k in lastWritten && lastWritten[k] == src[k] { n, found := n + 1, found + {k}; }
    }
    ListedAll(upsert, upserts);
    assert found == Rewritten(upserts, src, lastWritten);
  }

  method CountUndone(delete: seq<Key>, lastDeleted: set<Key>, ghost deletes: set<Key>) returns (n: nat)
    requires ListsExactly(delete, deletes)
    ensures n == |deletes * lastDeleted|
  {
    n := 0;
    ListedOnce(delete, deletes);
    hide ListsExactly, Lists;
    ghost var found: set<Key> := {};
    for i := 0 to |delete|
      invariant forall k :: k in found <==> k in delete[..i] && k in lastDeleted
      invariant n == |found|
    {
      var k := delete[i];
      ListedNext(delete, deletes, i);
      if k in lastDeleted { n, found := n + 1, found + {k}; }
    }
    ListedAll(delete, deletes);
    assert found == deletes * lastDeleted;
  }

  /** Counts the rows blamed on staging: written and different again, or deleted and back. */
  method StagingWrites(ops: Ops, src: Table, lastWritten: Table, lastDeleted: set<Key>, ghost upserts: set<Key>,
                       ghost deletes: set<Key>) returns (n: nat)
    requires ListsExactly(ops.upsert, upserts) && upserts <= src.Keys
    requires ListsExactly(ops.delete, deletes)
    ensures n == |Rewritten(upserts, src, lastWritten)| + |deletes * lastDeleted|
  {
    var rewritten := CountRewritten(ops.upsert, src, lastWritten, upserts);
    var undone := CountUndone(ops.delete, lastDeleted, deletes);
    n := rewritten + undone;
  }

  // ---- buckets of a table ----

  function Slice(t: Table, b: Bucket): Table {
    map k | k in t && t[k].bucket == b :: t[k]
  }

  function BucketsOf(t: Table): set<Bucket> {
    set k | k in t :: t[k].bucket
  }

  /** SELECT bucket, count(*), hash GROUP BY bucket. */
  function Fingerprints(t: Table): map<Bucket, Fingerprint<Table>> {
    map b | b in BucketsOf(t) :: Fingerprint(|Slice(t, b)|, Slice(t, b))
  }

  /** The keyed rows of the given buckets. */
  function RowsOf(t: Table, buckets: set<Bucket>): Table {
    map k | k in t && t[k].bucket in buckets :: t[k]
  }

  /** A row of either side in a bucket that does not differ is the same row on both sides. */
  lemma {:induction false} OutsideDifferingBuckets(src: Table, dst: Table, k: Key)
    requires k in src || k in dst
    requires var b := if k in src then src[k].bucket else dst[k].bucket;
      b !in DifferingBuckets(Fingerprints(src), Fingerprints(dst))
      || (k in dst && dst[k].bucket !in DifferingBuckets(Fingerprints(src), Fingerprints(dst)))
    ensures k in src && k in dst && dst[k] == src[k]
  {
    var fs, fd := Fingerprints(src), Fingerprints(dst);
    var bs := DifferingBuckets(fs, fd);
    var b := if k in src && src[k].bucket !in bs then src[k].bucket else dst[k].bucket;
    assert b in fs || b in fd;
    assert !Differs(fs, fd, b);
    assert Slice(src, b) == Slice(dst, b);
    assert k in Slice(src, b) || k in Slice(dst, b);
  }

  lemma {:induction false} BucketDiffAtKey(src: Table, dst: Table, bs: set<Bucket>, mode: Mode, k: Key)
    requires bs == DifferingBuckets(Fingerprints(src), Fingerprints(dst))
    ensures MustWrite(RowsOf(src, bs), RowsOf(dst, bs), mode, k) == MustWrite(src, dst, mode, k)
    ensures MustDelete(RowsOf(src, bs), RowsOf(dst, bs), mode, k) == MustDelete(src, dst, mode, k)
    ensures Diverges(RowsOf(src, bs), RowsOf(dst, bs), mode, k) == Diverges(src, dst, mode, k)
  {
    if k in src && src[k].bucket !in bs { OutsideDifferingBuckets(src, dst, k); }
    if k in dst && dst[k].bucket !in bs { OutsideDifferingBuckets(src, dst, k); }
  }

  /** Fetching only the differing buckets loses nothing: the row diff of those buckets is the row diff of the whole
      tables, also when a key's rows lie in different buckets on the two sides. */
  lemma {:induction false} BucketDiffIsWholeDiff(src: Table, dst: Table, bs: set<Bucket>, mode: Mode)
    requires bs == DifferingBuckets(Fingerprints(src), Fingerprints(dst))
    ensures UpsertKeys(RowsOf(src, bs), RowsOf(dst, bs), mode) == UpsertKeys(src, dst, mode)
    ensures DeleteKeys(RowsOf(src, bs), RowsOf(dst, bs), mode) == DeleteKeys(src, dst, mode)
    ensures DivergentKeys(RowsOf(src, bs), RowsOf(dst, bs), mode) == DivergentKeys(src, dst, mode)
  {
    hide DifferingBuckets, Fingerprints, RowsOf;
    forall k
      ensures MustWrite(RowsOf(src, bs), RowsOf(dst, bs), mode, k) == MustWrite(src, dst, mode, k)
      ensures MustDelete(RowsOf(src, bs), RowsOf(dst, bs), mode, k) == MustDelete(src, dst, mode, k)
      ensures Diverges(RowsOf(src, bs), RowsOf(dst, bs), mode, k) == Diverges(src, dst, mode, k)
    {
      BucketDiffAtKey(src, dst, bs, mode, k);
    }
  }

  /** No bucket differs exactly when the tables are equal: the check behind MR1 and MR2. */
  lemma {:induction false} NoBucketDiffersIffEqual(src: Table, dst: Table)
    ensures DifferingBuckets(Fingerprints(src), Fingerprints(dst)) == {} <==> src == dst
  {
    if DifferingBuckets(Fingerprints(src), Fingerprints(dst)) == {} {
      forall k | k in src || k in dst ensures k in src && k in dst && dst[k] == src[k] {
        OutsideDifferingBuckets(src, dst, k);
      }
    }
  }
}
