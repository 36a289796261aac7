/** Tables and memtables as sorted runs for a merging iterator. */
module TableRuns {
  import opened DbFormat
  import opened Versions
  import opened MergingIterators

  /** The entries of the files of a level below 0, one file after the other. */
  function LevelRun(fs: seq<File>): seq<Entry> {
    if fs == [] then [] else LevelRun(fs[..|fs| - 1]) + fs[|fs| - 1].entries
  }

  lemma {:induction false} LevelRunIs(fs: seq<File>)
    ensures forall e :: e in LevelRun(fs) <==> exists f :: f in fs && e in f.entries
  {
    if fs != [] {
      var n := |fs| - 1;
      assert fs == fs[..n] + [fs[n]];
      LevelRunIs(fs[..n]);
    }
  }

  lemma {:induction false} LevelRunSorted(fs: seq<File>)
    requires SortedFiles(fs) && DisjointFiles(fs)
    ensures Sorted(LevelRun(fs))
  {
    if fs != [] {
      var n := |fs| - 1;
      var front, last := LevelRun(fs[..n]), fs[n].entries;
      assert forall f :: f in fs[..n] ==> f in fs;
      LevelRunSorted(fs[..n]);
      LevelRunIs(fs[..n]);
      forall i, j | 0 <= i < |front| && 0 <= j < |last| ensures KeyLess(front[i].ik, last[j].ik) {
        assert front[i] in front;
        var f :| f in fs[..n] && front[i] in f.entries;
        var k :| 0 <= k < n && fs[k] == f;
        LevelOrder(fs, k, n);
        FileOrder(f, front[i]);
        FileOrder(fs[n], last[j]);
      }
    }
  }

  /** No entry of the runs has the key and the sequence number of one of es. */
  ghost predicate Apart(runs: seq<seq<Entry>>, es: seq<Entry>) {
    forall d, e :: InRuns(runs, d) && e in es && d.ik.ukey == e.ik.ukey ==> d.ik.seqno != e.ik.seqno
  }

  lemma AddRun(runs: seq<seq<Entry>>, es: seq<Entry>)
    requires DistinctKeys(runs) && Sorted(es) && Apart(runs, es)
    ensures DistinctKeys(runs + [es])
    ensures forall e :: InRuns(runs + [es], e) <==> InRuns(runs, e) || e in es
  {
    var all := runs + [es];
    forall i, k, d: Entry, e: Entry | 0 <= i < k < |all| && d in all[i] && e in all[k] ensures KeyLess(d.ik, e.ik) || KeyLess(e.ik, d.ik) {
      if k == |runs| {
        assert InRuns(runs, d);
      } else {
        assert d in runs[i] && e in runs[k];
      }
    }
    forall e ensures InRuns(all, e) <==> InRuns(runs, e) || e in es {
      if InRuns(runs, e) {
        var i :| 0 <= i < |runs| && e in runs[i];
        assert e in all[i];
      }
      if e in es { assert e in all[|runs|]; }
    }
  }

  lemma AddRunInFront(runs: seq<seq<Entry>>, es: seq<Entry>)
    requires DistinctKeys(runs) && Sorted(es) && Apart(runs, es)
    ensures DistinctKeys([es] + runs)
    ensures forall e :: InRuns([es] + runs, e) <==> InRuns(runs, e) || e in es
  {
    var all := [es] + runs;
    forall i, k, d: Entry, e: Entry | 0 <= i < k < |all| && d in all[i] && e in all[k] ensures KeyLess(d.ik, e.ik) || KeyLess(e.ik, d.ik) {
      if i == 0 {
        assert e in runs[k - 1] && InRuns(runs, e);
      } else {
        assert d in runs[i - 1] && e in runs[k - 1];
      }
    }
    forall e ensures InRuns(all, e) <==> InRuns(runs, e) || e in es {
      if InRuns(runs, e) {
        var i :| 0 <= i < |runs| && e in runs[i];
        assert e in all[i + 1];
      }
      if e in es { assert e in all[0]; }
    }
  }

  lemma NoRuns()
    ensures DistinctKeys([]) && forall e :: !InRuns([], e)
  {
  }

  /** The runs hold exactly the entries of the first i of these files. */
  ghost predicate HoldsFiles(runs: seq<seq<Entry>>, fs: seq<File>, i: nat) {
    forall e :: InRuns(runs, e) <==> exists k :: 0 <= k < i && k < |fs| && e in fs[k].entries
  }

  lemma NextFile(runs: seq<seq<Entry>>, fs: seq<File>, i: nat)
    requires SortedFiles(fs) && UniqueNumbers(fs) && NewerByNumber(fs) && HoldsFiles(runs, fs, i) && i < |fs|
    ensures Apart(runs, fs[i].entries)
  {
    forall d, e | InRuns(runs, d) && e in fs[i].entries && d.ik.ukey == e.ik.ukey ensures d.ik.seqno != e.ik.seqno {
      var k :| 0 <= k < i && d in fs[k].entries;
      assert fs[k] in fs && fs[i] in fs && BySmallestKey(fs[k], fs[i]);
      assert fs[k].number != fs[i].number;
      assert Newer(fs[k], fs[i]) || Newer(fs[i], fs[k]);
    }
  }

  /** All the entries of a merge, one Next after the other. */
  method Drain(runs: seq<seq<Entry>>) returns (es: seq<Entry>)
    requires DistinctKeys(runs)
    ensures es == MergeRuns(runs)
  {
    hide DistinctKeys, MergingIterator.Valid;
    var iter := new MergingIterator(runs);
    iter.SeekToFirst();
    es := [];
    while iter.IsValid()
      invariant fresh(iter) && iter.Valid() && es == iter.merged[..iter.at]
      decreases |iter.merged| - iter.at
    {
      es := es + [iter.Current()];
      iter.Next();
    }
  }
}
