/** Table files arranged in levels, and the point lookup over them. */
module Versions {
  import opened Wrappers
  import opened DbFormat

  const NUM_LEVELS: nat := 7
  const MAX_MEM_COMPACT_LEVEL: nat := 2
  const TARGET_FILE_SIZE: nat := 2 * 1048576
  const MAX_GRANDPARENT_OVERLAP_BYTES: nat := 10 * TARGET_FILE_SIZE

  /** FileMetaData together with the entries of the table it names. */
  datatype FileMeta = FileMeta(number: nat, size: nat, entries: seq<Entry>) {
    predicate Valid() {
      && |entries| > 0
      && Sorted(entries)
      && forall e :: e in entries ==> e.ik.seqno <= MAX_SEQUENCE_NUMBER
    }
    function Smallest(): InternalKey
      requires |entries| > 0
    {
      entries[0].ik
    }
    function Largest(): InternalKey
      requires |entries| > 0
    {
      entries[|entries| - 1].ik
    }
  }

  const ANY_ENTRY := Entry(InternalKey(0.0, 0, Deletion), "")

  type File = f: FileMeta | f.Valid() witness FileMeta(0, 0, [ANY_ENTRY])

  type Version = v: seq<seq<File>> | |v| == NUM_LEVELS witness [[], [], [], [], [], [], []]

  ghost function FileEntries(f: File): set<Entry> {
    Elements(f.entries)
  }

  ghost function LevelEntries(fs: seq<File>): set<Entry> {
    set f, e | f in fs && e in f.entries :: e
  }

  ghost function VersionEntries(v: Version): set<Entry> {
    set l, f, e | 0 <= l < |v| && f in v[l] && e in f.entries :: e
  }

  /** BySmallestKey: the order of every file list. */
  predicate BySmallestKey(f: File, g: File) {
    KeyLess(f.Smallest(), g.Smallest()) || (f.Smallest() == g.Smallest() && f.number < g.number)
  }

  ghost predicate SortedFiles(fs: seq<File>) {
    forall i, j :: 0 <= i < j < |fs| ==> BySmallestKey(fs[i], fs[j])
  }

  predicate Disjoint(f: File, g: File) {
    KeyLess(f.Largest(), g.Smallest()) || KeyLess(g.Largest(), f.Smallest())
  }

  ghost predicate DisjointFiles(fs: seq<File>) {
    forall f, g :: f in fs && g in fs && f != g ==> Disjoint(f, g)
  }

  /** Every entry of f is newer than every entry of g for the same user key. */
  ghost predicate Newer(f: File, g: File) {
    forall d, e :: d in f.entries && e in g.entries && d.ik.ukey == e.ik.ukey ==> d.ik.seqno > e.ik.seqno
  }

  /** Among overlapping level-0 files the file number orders the contents by age. */
  ghost predicate NewerByNumber(fs: seq<File>) {
    forall f, g :: f in fs && g in fs && f.number > g.number ==> Newer(f, g)
  }

  ghost predicate UniqueNumbers(fs: seq<File>) {
    forall f, g :: f in fs && g in fs && f.number == g.number ==> f == g
  }

  /** Structure that holds whatever the compaction choices: lists in key order and,
      below level 0, no two files of a level overlapping by internal key. */
  ghost predicate WellFormed(v: Version) {
    && (forall l :: 0 <= l < NUM_LEVELS ==> SortedFiles(v[l]) && UniqueNumbers(v[l]))
    && (forall l :: 1 <= l < NUM_LEVELS ==> DisjointFiles(v[l]))
  }

  /** A shallower level never holds an older version of a key than a deeper one. */
  ghost predicate NewerAbove(v: Version) {
    && NewerByNumber(v[0])
    && forall l, m, f, g :: 0 <= l < m < NUM_LEVELS && f in v[l] && g in v[m] ==> Newer(f, g)
  }

  lemma FileOrder(f: File, e: Entry)
    requires e in f.entries
    ensures e.ik == f.Smallest() || KeyLess(f.Smallest(), e.ik)
    ensures e.ik == f.Largest() || KeyLess(e.ik, f.Largest())
  {
  }

  lemma LevelOrder(fs: seq<File>, i: nat, j: nat)
    requires SortedFiles(fs) && DisjointFiles(fs) && i < j < |fs|
    ensures KeyLess(fs[i].Largest(), fs[j].Smallest())
  {
    assert BySmallestKey(fs[i], fs[j]);
    assert fs[i] in fs && fs[j] in fs;
    FileOrder(fs[j], fs[j].entries[|fs[j].entries| - 1]);
    FileOrder(fs[i], fs[i].entries[|fs[i].entries| - 1]);
  }

  /** FindFile: binary search for the first file whose largest key is at or after `key`. */
  method FindFile(fs: seq<File>, key: InternalKey) returns (right: nat)
    requires SortedFiles(fs) && DisjointFiles(fs)
    ensures right <= |fs|
    ensures forall i :: 0 <= i < right ==> KeyLess(fs[i].Largest(), key)
    ensures forall i :: right <= i < |fs| ==> !KeyLess(fs[i].Largest(), key)
  {
    var left := 0;
    right := |fs|;
    while left < right
      invariant 0 <= left <= right <= |fs|
      invariant forall i :: 0 <= i < left ==> KeyLess(fs[i].Largest(), key)
      invariant forall i :: right <= i < |fs| ==> !KeyLess(fs[i].Largest(), key)
    {
      var mid := (left + right) / 2;
      forall i, j | 0 <= i < j < |fs|
        ensures KeyLess(fs[i].Largest(), fs[j].Largest())
      {
        LevelOrder(fs, i, j);
        FileOrder(fs[j], fs[j].entries[|fs[j].entries| - 1]);
      }
      if KeyLess(fs[mid].Largest(), key) {
        left := mid + 1;
      } else {
        right := mid;
      }
    }
  }

  /** Nothing in f is visible to a read of k at snapshot s. */
  ghost predicate Silent(f: File, k: UserKey, s: nat) {
    forall e :: e in f.entries ==> !Visible(e, k, s)
  }

  /** A seek in entries in internal-key order counts only when it lands on the user key. */
  function SortedGet(es: seq<Entry>, k: UserKey, s: nat): (hit: Option<Entry>)
    requires Sorted(es)
    ensures hit.Some? ==> Newest(Elements(es), k, s, hit.value)
    ensures hit.None? ==> forall e :: e in es ==> !Visible(e, k, s)
  {
    var i := FirstAtLeast(es, LookupKey(k, s));
    if i < |es| && es[i].ik.ukey == k then Some(es[i]) else None
  }

  /** TableCache::Get with SaveValue. */
  function FileGet(f: File, k: UserKey, s: nat): (hit: Option<Entry>)
    ensures hit.Some? ==> Newest(FileEntries(f), k, s, hit.value)
    ensures hit.None? ==> Silent(f, k, s)
  {
    SortedGet(f.entries, k, s)
  }

  /** The level-0 candidates ordered NewestFirst. */
  function InsertNewestFirst(fs: seq<File>, f: File): (r: seq<File>)
    requires forall i, j :: 0 <= i < j < |fs| ==> fs[i].number >= fs[j].number
    ensures forall i, j :: 0 <= i < j < |r| ==> r[i].number >= r[j].number
    ensures |r| == |fs| + 1
    ensures forall g :: g in r <==> g == f || g in fs
  {
    if fs == [] || fs[0].number <= f.number then [f] + fs
    else
      var rest := InsertNewestFirst(fs[1..], f);
      assert forall g :: g in fs <==> g == fs[0] || g in fs[1..];
      assert forall j :: 0 <= j < |rest| ==> rest[j] == f || rest[j] in fs[1..];
      [fs[0]] + rest
  }

  /** Level 0 of Version::Get: the files whose range covers k, newest first. */
  method Candidates(fs: seq<File>, k: UserKey, s: nat) returns (tmp: seq<File>)
    ensures forall a, b :: 0 <= a < b < |tmp| ==> tmp[a].number >= tmp[b].number
    ensures forall g :: g in tmp ==> g in fs
    ensures forall g :: g in fs ==> g in tmp || Silent(g, k, s)
  {
    tmp := [];
    var i := 0;
    while i < |fs|
      invariant 0 <= i <= |fs|
      invariant forall a, b :: 0 <= a < b < |tmp| ==> tmp[a].number >= tmp[b].number
      invariant forall g :: g in tmp ==> g in fs
      invariant forall j :: 0 <= j < i ==> fs[j] in tmp || Silent(fs[j], k, s)
    {
      var f := fs[i];
      if f.Smallest().ukey <= k <= f.Largest().ukey {
        tmp := InsertNewestFirst(tmp, f);
      } else {
        forall e | e in f.entries ensures !Visible(e, k, s) { FileOrder(f, e); }
      }
      i := i + 1;
    }
  }

  method SearchLevelZero(fs: seq<File>, k: UserKey, s: nat) returns (hit: Option<Entry>)
    requires NewerByNumber(fs) && UniqueNumbers(fs)
    ensures hit.Some? ==> Newest(LevelEntries(fs), k, s, hit.value)
    ensures hit.None? ==> forall e :: e in LevelEntries(fs) ==> !Visible(e, k, s)
  {
    var tmp := Candidates(fs, k, s);
    var i := 0;
    while i < |tmp|
      invariant 0 <= i <= |tmp|
      invariant forall j :: 0 <= j < i ==> Silent(tmp[j], k, s)
    {
      hit := FileGet(tmp[i], k, s);
      if hit.Some? {
        NewestFileWins(fs, tmp, i, k, s);
        return;
      }
      i := i + 1;
    }
    hit := None;
    assert forall f :: f in fs ==> Silent(f, k, s);
  }

  lemma NewestFileWins(fs: seq<File>, tmp: seq<File>, i: nat, k: UserKey, s: nat)
    requires NewerByNumber(fs) && UniqueNumbers(fs)
    requires forall a, b :: 0 <= a < b < |tmp| ==> tmp[a].number >= tmp[b].number
    requires forall g :: g in tmp ==> g in fs
    requires forall g :: g in fs ==> g in tmp || Silent(g, k, s)
    requires i < |tmp| && forall j :: 0 <= j < i ==> Silent(tmp[j], k, s)
    requires FileGet(tmp[i], k, s).Some?
    ensures Newest(LevelEntries(fs), k, s, FileGet(tmp[i], k, s).value)
  {
    var hit := FileGet(tmp[i], k, s).value;
    assert tmp[i] in fs;
    forall d | d in LevelEntries(fs) && Visible(d, k, s) ensures d.ik.seqno <= hit.ik.seqno {
      var f :| f in fs && d in f.entries;
      assert f in tmp;
      if f == tmp[i] {
        assert d in FileEntries(f);
      } else {
        assert tmp[i].number > f.number && Newer(tmp[i], f);
      }
    }
  }

  /** A level below 0 of Version::Get: at most one file can deliver an entry. */
  method SearchLevel(fs: seq<File>, k: UserKey, s: nat) returns (hit: Option<Entry>)
    requires SortedFiles(fs) && DisjointFiles(fs)
    ensures hit.Some? ==> Newest(LevelEntries(fs), k, s, hit.value)
    ensures hit.None? ==> forall e :: e in LevelEntries(fs) ==> !Visible(e, k, s)
  {
    var index := FindFile(fs, LookupKey(k, s));
    hit := None;
    if index < |fs| && fs[index].Smallest().ukey <= k {
      hit := FileGet(fs[index], k, s);
    }
    forall j, e | 0 <= j < |fs| && e in fs[j].entries && Visible(e, k, s)
      ensures index < |fs| && hit.Some? && e.ik.seqno <= hit.value.ik.seqno
    {
      OneFileSuffices(fs, index, j, k, s, e, hit);
    }
  }

  lemma OneFileSuffices(fs: seq<File>, index: nat, j: nat, k: UserKey, s: nat, e: Entry, hit: Option<Entry>)
    requires SortedFiles(fs) && DisjointFiles(fs) && index <= |fs| && j < |fs|
    requires forall i :: 0 <= i < index ==> KeyLess(fs[i].Largest(), LookupKey(k, s))
    requires forall i :: index <= i < |fs| ==> !KeyLess(fs[i].Largest(), LookupKey(k, s))
    requires e in fs[j].entries && Visible(e, k, s)
    requires hit == if index < |fs| && fs[index].Smallest().ukey <= k then FileGet(fs[index], k, s) else None
    ensures index < |fs| && hit.Some? && e.ik.seqno <= hit.value.ik.seqno
  {
    FileOrder(fs[j], e);
    assert j >= index;
    if j > index {
      LevelOrder(fs, index, j);
      var last := fs[index].entries[|fs[index].entries| - 1];
      FileOrder(fs[index], last);
      assert Visible(last, k, s) && last in fs[index].entries;
      assert last in FileEntries(fs[index]);
    } else {
      assert e in FileEntries(fs[index]);
    }
  }

  /** Some entry of S is visible to a read of k at snapshot s. */
  ghost predicate Speaks(S: set<Entry>, k: UserKey, s: nat) {
    exists e :: e in S && Visible(e, k, s)
  }

  /** What a search from level l downward answers: the first level that has anything to say decides. */
  ghost function ReadFrom(v: Version, l: nat, k: UserKey, s: nat): Result
    requires l <= NUM_LEVELS
    decreases NUM_LEVELS - l
  {
    if l == NUM_LEVELS then NotFound
    else if Speaks(LevelEntries(v[l]), k, s) then Read(LevelEntries(v[l]), k, s)
    else ReadFrom(v, l + 1, k, s)
  }

  lemma LevelInVersion(v: Version, l: nat)
    requires l < NUM_LEVELS
    ensures LevelEntries(v[l]) <= VersionEntries(v)
    ensures UniqueSeq(VersionEntries(v)) ==> UniqueSeq(LevelEntries(v[l]))
  {
  }

  /** Version::Get answers from the first level that holds a visible version, in whatever way
      the versions of a key are spread over the levels from 1 on. */
  method Get(v: Version, k: UserKey, s: nat) returns (r: Result)
    requires WellFormed(v) && NewerByNumber(v[0]) && UniqueSeq(VersionEntries(v))
    ensures r == ReadFrom(v, 0, k, s)
  {
    hide NewerByNumber, UniqueSeq, Read, LevelEntries, VersionEntries;
    var level := 0;
    while level < NUM_LEVELS
      invariant 0 <= level <= NUM_LEVELS
      invariant ReadFrom(v, 0, k, s) == ReadFrom(v, level, k, s)
    {
      var hit;
      if level == 0 {
        hit := SearchLevelZero(v[0], k, s);
      } else {
        hit := SearchLevel(v[level], k, s);
      }
      if hit.Some? {
        LevelInVersion(v, level);
        ReadIsNewest(LevelEntries(v[level]), k, s, hit.value);
        r := Answer(hit.value);
        return;
      }
      level := level + 1;
    }
    r := NotFound;
  }

  /** As long as upper levels hold the newer versions, the first level that speaks decides rightly:
      the answer is the newest visible version of all. */
  lemma {:induction false} FirstLevelDecides(v: Version, l: nat, k: UserKey, s: nat)
    requires NewerAbove(v) && UniqueSeq(VersionEntries(v)) && l <= NUM_LEVELS
    requires forall m :: 0 <= m < l ==> !Speaks(LevelEntries(v[m]), k, s)
    ensures ReadFrom(v, l, k, s) == Read(VersionEntries(v), k, s)
    decreases NUM_LEVELS - l
  {
    hide NewerAbove, UniqueSeq, Read;
    if l == NUM_LEVELS {
      forall e | e in VersionEntries(v) ensures !Visible(e, k, s) {
        var m, f :| 0 <= m < |v| && f in v[m] && e in f.entries;
        assert e in LevelEntries(v[m]);
      }
      ReadNothing(VersionEntries(v), k, s);
    } else if Speaks(LevelEntries(v[l]), k, s) {
      var e :| e in LevelEntries(v[l]) && Visible(e, k, s);
      NewestExists(LevelEntries(v[l]), k, s, e);
      var m :| Newest(LevelEntries(v[l]), k, s, m);
      LevelInVersion(v, l);
      ReadIsNewest(LevelEntries(v[l]), k, s, m);
      FirstHitIsNewest(v, l, k, s, m);
    } else {
      FirstLevelDecides(v, l + 1, k, s);
    }
  }

  lemma FirstHitIsNewest(v: Version, level: nat, k: UserKey, s: nat, e: Entry)
    requires NewerAbove(v) && UniqueSeq(VersionEntries(v)) && level < NUM_LEVELS
    requires forall l :: 0 <= l < level ==> !Speaks(LevelEntries(v[l]), k, s)
    requires Newest(LevelEntries(v[level]), k, s, e)
    ensures Read(VersionEntries(v), k, s) == Answer(e)
  {
    hide Read, UniqueSeq;
    var f :| f in v[level] && e in f.entries;
    forall d | d in VersionEntries(v) && Visible(d, k, s) ensures d.ik.seqno <= e.ik.seqno {
      var m, g :| 0 <= m < |v| && g in v[m] && d in g.entries;
      assert d in LevelEntries(v[m]);
      if m > level { assert Newer(f, g); }
    }
    ReadIsNewest(VersionEntries(v), k, s, e);
  }
}
