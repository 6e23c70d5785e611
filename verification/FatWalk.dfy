/** The cluster-chain walk of src/fat.c (read_file, getFatEntrySectorAndOffset): a
    FAT32 chain followed with a one-sector cache of the table, against direct
    lookup in the table. */
module FatWalk {
  import opened Common
  import opened BitField

  /** A FAT32 volume of 512-byte sectors; its table begins at sector `first`. */
  datatype Volume = Volume(sectors: seq<seq<byte>>, first: nat)

  predicate Sound(v: Volume) { forall i :: 0 <= i < |v.sectors| ==> |v.sectors[i]| == 512 }

  /** getFatEntrySectorAndOffset */
  function Sector(v: Volume, cluster: nat): nat { v.first + cluster * 4 / 512 }

  function Offset(cluster: nat): (r: nat)
    ensures r + 4 <= 512
  {
    cluster * 4 % 512
  }

  /** The 28-bit entry at an offset of a table sector. */
  function EntryAt(sector: seq<byte>, offset: nat): (r: nat)
    requires offset + 4 <= |sector|
    ensures r < 0x1000_0000
  {
    ((sector[offset] as int) + 0x100 * (sector[offset + 1] as int) + 0x10000 * (sector[offset + 2] as int)
     + 0x100_0000 * (sector[offset + 3] as int)) % 0x1000_0000
  }

  /** The entry is the low 28 bits of a little-endian number. */
  lemma EntryIsLittleEndian(sector: seq<byte>, offset: nat)
    requires offset + 4 <= |sector|
    ensures EntryAt(sector, offset) == LittleEndian(sector[offset..offset + 4]) % 0x1000_0000
  {
    FourBytes(sector[offset..offset + 4]);
  }

  /** An entry stored at an offset is read back from it, whatever its top four bits. */
  lemma EntryReadsBack(sector: seq<byte>, offset: nat, v: nat, top: nat)
    requires offset + 4 <= |sector| && v < 0x1000_0000 && top < 16
    requires sector[offset..offset + 4] == Put4(v + 0x1000_0000 * top)
    ensures EntryAt(sector, offset) == v
  {
    var x := v + 0x1000_0000 * top;
    EntryIsLittleEndian(sector, offset);
    Put4Reads(x);
    LowBits(v, top);
  }

  lemma LowBits(v: nat, top: nat)
    requires v < 0x1000_0000
    ensures (v + 0x1000_0000 * top) % 0x1000_0000 == v
  {
  }

  /** Sector and offset are where entry number `cluster` of four bytes lies in the table. */
  lemma EntryPlace(v: Volume, cluster: nat)
    ensures v.first <= Sector(v, cluster)
    ensures 512 * (Sector(v, cluster) - v.first) + Offset(cluster) == 4 * cluster
  {
  }

  /** Two clusters never share a byte of the table. */
  lemma EntriesApart(v: Volume, c: nat, d: nat)
    requires c < d && Sector(v, c) == Sector(v, d)
    ensures Offset(c) + 4 <= Offset(d)
  {
    EntryPlace(v, c);
    EntryPlace(v, d);
  }

  predicate Readable(v: Volume, cluster: nat) { Sector(v, cluster) < |v.sectors| }

  /** Direct lookup. */
  function Entry(v: Volume, cluster: nat): nat
    requires Sound(v) && Readable(v, cluster)
  {
    EntryAt(v.sectors[Sector(v, cluster)], Offset(cluster))
  }

  /** The markers at which the code stops. */
  predicate Stops(cluster: nat) { cluster == 0x0fff_ffff || cluster == 0x0fff_fff7 || cluster == 0 }

  /** The clusters from `cluster` on, by direct lookup, up to a marker or to a
      cluster whose table sector cannot be read. */
  predicate Chain(v: Volume, cluster: nat, list: seq<nat>)
    requires Sound(v)
    decreases |list|
  {
    if list == [] then Stops(cluster) || !Readable(v, cluster)
    else
      && !Stops(cluster) && list[0] == cluster
      && Readable(v, cluster) && Chain(v, Entry(v, cluster), list[1..])
  }

  /** A file of one cluster ends at exactly these entries, or where the next cannot be read. */
  lemma OneCluster(v: Volume, cluster: nat)
    requires Sound(v) && Readable(v, cluster) && cluster !in {0, 0x0fff_fff7, 0x0fff_ffff}
    ensures Chain(v, cluster, [cluster]) <==>
              Entry(v, cluster) in {0, 0x0fff_fff7, 0x0fff_ffff} || !Readable(v, Entry(v, cluster))
  {
    assert [cluster][1..] == [];
  }

  /** What follows the last cluster of a chain. */
  function End(v: Volume, cluster: nat, list: seq<nat>): nat
    requires Sound(v) && Chain(v, cluster, list)
    decreases |list|
  {
    if list == [] then cluster else End(v, Entry(v, cluster), list[1..])
  }

  // ---------------------------------------------------------------- chains

  lemma {:induction false} ChainUnique(v: Volume, cluster: nat, list: seq<nat>, list': seq<nat>)
    requires Sound(v) && Chain(v, cluster, list) && Chain(v, cluster, list')
    ensures list == list'
    decreases |list|
  {
    if list != [] {
      ChainUnique(v, Entry(v, cluster), list[1..], list'[1..]);
      assert list == [cluster] + list[1..] && list' == [cluster] + list'[1..];
    }
  }

  lemma {:induction false} ChainSuffix(v: Volume, cluster: nat, list: seq<nat>, i: nat)
    requires Sound(v) && Chain(v, cluster, list) && i < |list|
    ensures Chain(v, list[i], list[i..])
    decreases |list|
  {
    if i == 0 {
      assert list[0..] == list;
    } else {
      ChainSuffix(v, Entry(v, cluster), list[1..], i - 1);
      assert list[1..][i - 1..] == list[i..];
    }
  }

  /** A chain that ends visits no cluster twice. */
  lemma ChainDistinct(v: Volume, cluster: nat, list: seq<nat>, i: nat, j: nat)
    requires Sound(v) && Chain(v, cluster, list) && i < j < |list|
    ensures list[i] != list[j]
  {
    ChainSuffix(v, cluster, list, i);
    ChainSuffix(v, cluster, list, j);
    if list[i] == list[j] {
      ChainUnique(v, list[i], list[i..], list[j..]);
      assert false;
    }
  }

  // ---------------------------------------------------------------- the cache

  /** The loop's variables: the next cluster, the sector last read, and the buffer. */
  datatype Walk = Walk(cluster: nat, cached: nat, buffer: seq<byte>)

  /** One turn: the table sector is read only when its number changes. */
  function Step(v: Volume, w: Walk): Walk
    requires Sound(v) && |w.buffer| == 512 && !Fails(v, w)
  {
    var sector := Sector(v, w.cluster);
    var buffer := if w.cached != sector then v.sectors[sector] else w.buffer;
    Walk(EntryAt(buffer, Offset(w.cluster)), sector, buffer)
  }

  /** The table sector must be read and cannot be. */
  predicate Fails(v: Volume, w: Walk) { w.cached != Sector(v, w.cluster) && !Readable(v, w.cluster) }

  /** The loop from w on visits exactly these clusters, and ends at a marker or not. */
  predicate Visits(v: Volume, w: Walk, list: seq<nat>, marker: bool)
    requires Sound(v) && |w.buffer| == 512
    decreases |list|
  {
    if Stops(w.cluster) then list == [] && marker
    else if Fails(v, w) then list == [] && !marker
    else list != [] && list[0] == w.cluster && Visits(v, Step(v, w), list[1..], marker)
  }

  /** The buffer is the table sector of that number. */
  predicate Cached(v: Volume, w: Walk) { w.cached < |v.sectors| && w.buffer == v.sectors[w.cached] }

  lemma StepLooksUp(v: Volume, w: Walk)
    requires Sound(v) && |w.buffer| == 512 && (Cached(v, w) || w.cached != Sector(v, w.cluster))
    ensures Fails(v, w) <==> !Readable(v, w.cluster)
    ensures Readable(v, w.cluster) ==> Step(v, w).cluster == Entry(v, w.cluster) && Cached(v, Step(v, w))
  {
  }

  /** With a sector in the cache the loop visits the clusters of direct lookup. */
  lemma {:induction false} CachedVisits(v: Volume, w: Walk, chain: seq<nat>)
    requires Sound(v) && |w.buffer| == 512 && Chain(v, w.cluster, chain)
    requires Stops(w.cluster) || Cached(v, w) || w.cached != Sector(v, w.cluster)
    ensures Visits(v, w, chain, Stops(End(v, w.cluster, chain)))
    decreases |chain|
  {
    if !Stops(w.cluster) {
      StepLooksUp(v, w);
      if chain != [] {
        CachedVisits(v, Step(v, w), chain[1..]);
      }
    }
  }

  /** A sector of zeros but for one byte, and what it says at that place. */
  function Stale(o: nat, b: byte): (s: seq<byte>)
    requires o + 4 <= 512
    ensures |s| == 512 && EntryAt(s, o) == b
  {
    seq(512, i => if i == o then b else 0)
  }

  /** read_file visits the clusters of direct lookup, whatever its buffer held before, if
      and only if there is nothing to visit or the first table sector is not sector 0,
      the number that marks the empty cache. */
  lemma WalkExact(v: Volume, start: nat, chain: seq<nat>)
    requires Sound(v) && Chain(v, start, chain)
    ensures (forall buffer: seq<byte> :: |buffer| == 512 ==>
               Visits(v, Walk(start, 0, buffer), chain, Stops(End(v, start, chain))))
            <==> Stops(start) || Sector(v, start) != 0
  {
    if Stops(start) || Sector(v, start) != 0 {
      forall buffer: seq<byte> | |buffer| == 512
        ensures Visits(v, Walk(start, 0, buffer), chain, Stops(End(v, start, chain)))
      {
        CachedVisits(v, Walk(start, 0, buffer), chain);
      }
    } else {
      var marker := Stops(End(v, start, chain));
      var b: byte := if |chain| == 1 then 1 else 0;
      MisledBy(v, start, chain, marker, b);
      assert !Visits(v, Walk(start, 0, Stale(Offset(start), b)), chain, marker);
    }
  }

  /** A stale entry of 0 ends the walk, and one of 1 leads on to cluster 1. */
  lemma MisledBy(v: Volume, start: nat, chain: seq<nat>, marker: bool, b: byte)
    requires Sound(v) && !Stops(start) && Sector(v, start) == 0 && b == if |chain| == 1 then 1 else 0
    ensures !Visits(v, Walk(start, 0, Stale(Offset(start), b)), chain, marker)
  {
    var w := Walk(start, 0, Stale(Offset(start), b));
    assert Step(v, w) == Walk(b, 0, w.buffer) && Sector(v, 1) == 0;
    if |chain| == 1 {
      assert !Visits(v, Step(v, w), [], marker);
    } else if chain != [] {
      assert !Visits(v, Step(v, w), chain[1..], marker);
    }
  }

  lemma NextListed(list: seq<nat>, k: nat)
    requires k < |list|
    ensures list[k..][0] == list[k] && list[k..][1..] == list[k + 1..] && list[..k + 1] == list[..k] + [list[k]]
  {
  }

  /** read_file's loop; the list is only needed to know that it ends. */
  method ReadFile(v: Volume, start: nat, buffer0: seq<byte>, ghost list: seq<nat>, ghost marker: bool)
    returns (visited: seq<nat>, ok: bool)
    requires Sound(v) && |buffer0| == 512 && Visits(v, Walk(start, 0, buffer0), list, marker)
    ensures visited == list && ok == marker
  {
    var cluster, cached: nat, buffer := start, 0, buffer0;
    visited := [];
    while !Stops(cluster)
      invariant |visited| <= |list| && visited == list[..|visited|] && |buffer| == 512
      invariant Visits(v, Walk(cluster, cached, buffer), list[|visited|..], marker)
      decreases |list| - |visited|
    {
      ghost var rest := list[|visited|..];
      assert Visits(v, Walk(cluster, cached, buffer), rest, marker);
      var sector, offset := Sector(v, cluster), Offset(cluster);
      if cached != sector {
        if sector >= |v.sectors| {
          return visited, false;
        }
        buffer := v.sectors[sector];
      }
      NextListed(list, |visited|);
      visited := visited + [cluster];
      cluster := EntryAt(buffer, offset);
      cached := sector;
    }
    ok := true;
  }
}
