/** The scanned files the audit consumes. The directory walk itself is not
    modelled: the scan is the sequence of entries it yields, in walk order. */
module Entries {
  import opened Paths
  import opened Ranking

  /** A scanned file: its path, its size in bytes and its modification time
      in whole seconds since the epoch. */
  datatype Entry = Entry(path: Path, size: nat, mtime: int)

  /** The sum of the entries' sizes. */
  function TotalSize(es: seq<Entry>): nat {
    if es == [] then 0 else TotalSize(es[..|es| - 1]) + es[|es| - 1].size
  }

  lemma TotalSizeAppend(es: seq<Entry>, e: Entry)
    ensures TotalSize(es + [e]) == TotalSize(es) + e.size
  {
    assert (es + [e])[..|es|] == es;
  }

  lemma {:induction false} TotalSizeConcat(a: seq<Entry>, b: seq<Entry>)
    ensures TotalSize(a + b) == TotalSize(a) + TotalSize(b)
    decreases |b|
  {
    if b == [] {
      assert a + b == a;
    } else {
      var b' := b[..|b| - 1];
      assert a + b == (a + b') + [b[|b| - 1]];
      TotalSizeConcat(a, b');
      TotalSizeAppend(a + b', b[|b| - 1]);
      TotalSizeAppend(b', b[|b| - 1]);
      assert b' + [b[|b| - 1]] == b;
    }
  }

  /** The largest-files row of an entry: `(size, str(path))`. */
  function Rank(e: Entry): Ranked {
    Ranked(e.size, PathText(e.path))
  }

  function Ranks(es: seq<Entry>): seq<Ranked> {
    seq(|es|, k requires 0 <= k < |es| => Rank(es[k]))
  }

  /** The set of paths the entries name. */
  function PathSet(es: seq<Entry>): set<Path> {
    set e | e in es :: e.path
  }
}
