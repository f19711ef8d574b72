/** Block deduplication of the copy-on-write file system: a table of digests that only grows, and the
    number of blocks found in it. */
module Dedup {
  import opened Words

  const MAX_BLOCKS: nat := 65536

  /** The SHA-256 digest of a block, as a number. */
  type Digest = nat

  /** The table after a digest has been looked up. */
  function Note(table: seq<Digest>, d: Digest): seq<Digest> {
    if d in table || |table| >= MAX_BLOCKS then table else table + [d]
  }

  /** The table after the first n blocks of a file. */
  function Noted(table: seq<Digest>, file: seq<Digest>, n: nat): seq<Digest>
    requires n <= |file|
  {
    if n == 0 then table else Note(Noted(table, file, n - 1), file[n - 1])
  }

  /** How many of the first n blocks were found in the table. */
  function Found(table: seq<Digest>, file: seq<Digest>, n: nat): (f: nat)
    requires n <= |file|
    ensures f <= n
  {
    if n == 0 then 0
    else Found(table, file, n - 1) + (if file[n - 1] in Noted(table, file, n - 1) then 1 else 0)
  }

  ghost predicate TableOk(table: seq<Digest>) {
    |table| <= 65536 && Distinct(table)
  }

  function Elements(s: seq<Digest>): set<Digest> {
    set d | d in s
  }

  lemma {:induction false} DistinctSize(s: seq<Digest>)
    requires Distinct(s)
    ensures |Elements(s)| == |s|
  {
    if s != [] {
      var n := |s| - 1;
      DistinctSize(s[..n]);
      assert s == s[..n] + [s[n]];
      assert Elements(s) == Elements(s[..n]) + {s[n]};
      assert s[n] !in s[..n];
    }
  }

  /** The table stays free of repetitions and within its bound, and keeps what it had. */
  lemma {:induction false} NotedOk(table: seq<Digest>, file: seq<Digest>, n: nat)
    requires TableOk(table) && n <= |file|
    ensures TableOk(Noted(table, file, n)) && table <= Noted(table, file, n)
    decreases n
  {
    if n > 0 {
      NotedOk(table, file, n - 1);
    }
  }

  lemma OneMore(file: seq<Digest>, n: nat)
    requires 0 < n <= |file|
    ensures Elements(file[..n]) == Elements(file[..n - 1]) + {file[n - 1]}
  {
    assert file[..n] == file[..n - 1] + [file[n - 1]];
  }

  lemma NoteKeeps(before: seq<Digest>, d: Digest, all: set<Digest>)
    requires TableOk(before) && all == Elements(before) + {d} && |all| <= MAX_BLOCKS
    ensures Elements(Note(before, d)) == all
  {
    if d !in before {
      DistinctSize(before);
      assert d !in Elements(before);
    }
  }

  /** While the digests of table and file together fit, the table holds all of them. */
  lemma {:induction false} RoomKeepsAll(table: seq<Digest>, file: seq<Digest>, n: nat)
    requires TableOk(table) && n <= |file| && |Elements(table) + Elements(file[..n])| <= MAX_BLOCKS
    ensures Elements(Noted(table, file, n)) == Elements(table) + Elements(file[..n])
    decreases n
  {
    if n > 0 {
      var fewer, all := Elements(table) + Elements(file[..n - 1]), Elements(table) + Elements(file[..n]);
      OneMore(file, n);
      SubsetSize(fewer, all);
      RoomKeepsAll(table, file, n - 1);
      NotedOk(table, file, n - 1);
      NoteKeeps(Noted(table, file, n - 1), file[n - 1], all);
    }
  }

  /** A pass over a file whose digests are all in the table finds every block and adds none. */
  lemma {:induction false} AllFound(table: seq<Digest>, file: seq<Digest>, n: nat)
    requires n <= |file|
    ensures (forall i :: 0 <= i < n ==> file[i] in table) ==>
            Noted(table, file, n) == table && Found(table, file, n) == n
    decreases n
  {
    if n > 0 {
      AllFound(table, file, n - 1);
    }
  }

  /** A full table never changes. */
  lemma {:induction false} FullStays(table: seq<Digest>, file: seq<Digest>, n: nat)
    requires |table| >= MAX_BLOCKS && n <= |file|
    ensures Noted(table, file, n) == table
    decreases n
  {
    if n > 0 {
      FullStays(table, file, n - 1);
    }
  }

  lemma {:induction false} FoundAllMeansIn(table: seq<Digest>, file: seq<Digest>, n: nat, i: nat)
    requires |table| >= MAX_BLOCKS && i < n <= |file| && Found(table, file, n) == n
    ensures file[i] in table
    decreases n
  {
    FullStays(table, file, n - 1);
    if i < n - 1 {
      FoundAllMeansIn(table, file, n - 1, i);
    }
  }

  /** Deduplicating the same file again reports every block as a duplicate if and only if the table had
      room for all the different digests. */
  lemma SecondPassIffRoom(table: seq<Digest>, file: seq<Digest>)
    requires TableOk(table)
    ensures var n, after := |file|, Noted(table, file, |file|);
            Found(after, file, n) == n <==> |Elements(table) + Elements(file)| <= 65536
  {
    var n, after := |file|, Noted(table, file, |file|);
    assert file[..n] == file;
    NotedOk(table, file, n);
    DistinctSize(after);
    var all := Elements(table) + Elements(file);
    if |all| <= MAX_BLOCKS {
      RoomKeepsAll(table, file, n);
      AllKnown(after, all, file);
      AllFound(after, file, n);
    } else if Found(after, file, n) == n {
      FillsUp(table, file);
      forall i | 0 <= i < n ensures file[i] in after {
        FoundAllMeansIn(after, file, n, i);
      }
      assert all <= Elements(after);
      SubsetSize(all, Elements(after));
    }
  }

  lemma AllKnown(after: seq<Digest>, all: set<Digest>, file: seq<Digest>)
    requires Elements(after) == all && Elements(file) <= all
    ensures forall i :: 0 <= i < |file| ==> file[i] in after
  {
    forall i | 0 <= i < |file| ensures file[i] in after {
      assert file[i] in Elements(file);
      assert file[i] in Elements(after);
    }
  }

  /** Digests that do not all fit leave the table full. */
  lemma FillsUp(table: seq<Digest>, file: seq<Digest>)
    requires TableOk(table) && |Elements(table) + Elements(file)| > MAX_BLOCKS
    ensures |Noted(table, file, |file|)| >= MAX_BLOCKS
  {
    var after := Noted(table, file, |file|);
    if |after| < MAX_BLOCKS {
      NotedOk(table, file, |file|);
      forall i: nat | i < |file| ensures file[i] in after {
        BelowMaxKeeps(table, file, |file|, i);
      }
      assert Elements(table) + Elements(file) <= Elements(after);
      SubsetSize(Elements(table) + Elements(file), Elements(after));
      DistinctSize(after);
    }
  }

  /** As long as the table is not full, every digest looked up is in it. */
  lemma {:induction false} BelowMaxKeeps(table: seq<Digest>, file: seq<Digest>, n: nat, i: nat)
    requires i < n <= |file| && |Noted(table, file, n)| < MAX_BLOCKS
    ensures file[i] in Noted(table, file, n)
    decreases n
  {
    if i < n - 1 {
      BelowMaxKeeps(table, file, n - 1, i);
    }
  }

  /** Block i repeats a digest of the table, or of an earlier block at which the table had room. */
  predicate SeenBefore(table: seq<Digest>, file: seq<Digest>, i: nat)
    requires i < |file|
  {
    file[i] in table || exists j: nat :: j < i && file[j] == file[i] && HadRoom(table, file, j)
  }

  predicate HadRoom(table: seq<Digest>, file: seq<Digest>, j: nat)
    requires j < |file|
  {
    |Noted(table, file, j)| < 65536
  }

  lemma {:induction false} InTableIff(table: seq<Digest>, file: seq<Digest>, n: nat, d: Digest)
    requires n <= |file|
    ensures d in Noted(table, file, n) <==>
            d in table || exists j: nat :: j < n && file[j] == d && HadRoom(table, file, j)
    decreases n
  {
    if n > 0 {
      InTableIff(table, file, n - 1, d);
      if file[n - 1] == d && !HadRoom(table, file, n - 1) {
        assert Noted(table, file, n) == Noted(table, file, n - 1);
      } else if file[n - 1] == d {
        assert d in Noted(table, file, n);
      }
    }
  }

  /** The number reported is that of the blocks that repeat what came before. */
  lemma {:induction false} FoundCountsRepeats(table: seq<Digest>, file: seq<Digest>, n: nat)
    requires n <= |file|
    ensures Found(table, file, n) == |Repeats(table, file, n)|
    decreases n
  {
    if n > 0 {
      FoundCountsRepeats(table, file, n - 1);
      InTableIff(table, file, n - 1, file[n - 1]);
      var fewer := Repeats(table, file, n - 1);
      assert Repeats(table, file, n) == if SeenBefore(table, file, n - 1) then fewer + {n - 1} else fewer;
    }
  }

  /** The blocks among the first n that do. */
  function Repeats(table: seq<Digest>, file: seq<Digest>, n: nat): set<nat>
    requires n <= |file|
  {
    set i: nat | i < n && SeenBefore(table, file, i)
  }

  class BlockTable {
    const hashes: array<Digest>
    var count: nat

    constructor (hashes: array<Digest>)
      requires hashes.Length == MAX_BLOCKS
      ensures this.hashes == hashes && Valid() && Table() == []
    {
      this.hashes, count := hashes, 0;
    }

    ghost predicate Valid()
      reads this
    {
      hashes.Length == MAX_BLOCKS && count <= MAX_BLOCKS
    }

    ghost function Table(): seq<Digest>
      requires Valid()
      reads this, hashes
    {
      hashes[..count]
    }

    /** The search loop. */
    method Search(d: Digest) returns (found: bool)
      requires Valid()
      ensures found <==> d in Table()
    {
      for i := 0 to count
        invariant d !in hashes[..i]
      {
        if hashes[i] == d {
          return true;
        }
      }
      return false;
    }

    /** `cowfs_deduplicate`, over the digests of the blocks that could be read. */
    method Deduplicate(file: seq<Digest>) returns (deduped: nat)
      requires Valid()
      modifies this, hashes
      ensures Valid() && Table() == Noted(old(Table()), file, |file|)
      ensures deduped == Found(old(Table()), file, |file|)
    {
      deduped := 0;
      ghost var start := Table();
      for k := 0 to |file|
        invariant Valid() && Table() == Noted(start, file, k) && deduped == Found(start, file, k)
      {
        var d := file[k];
        var found := Search(d);
        if !found && count < MAX_BLOCKS {
          hashes[count] := d;
          count := count + 1;
        } else if found {
          deduped := deduped + 1;
        }
      }
    }
  }
}
