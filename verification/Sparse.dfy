/**
 Sparse files and the rebase of a Firecracker Diff memory image onto a base image
 (internal/runtime/sparse.go).

 A file is a sequence of bytes, each of which is either allocated data or part of a hole.
 A hole reads as zero, so two files with the same bytes can have different extents.
 */
module Sparse {
  import opened Basics

  type File = seq<Option<Byte>>

  /** Guest page size, the granularity of Firecracker's dirty tracking. */
  const PAGE: nat := 4096

  /** The extent [lo, hi) is allocated. */
  ghost predicate IsData(f: File, lo: nat, hi: nat)
    requires hi <= |f|
  {
    forall i :: lo <= i < hi ==> f[i].Some?
  }

  /** The range [lo, hi) is a hole. */
  ghost predicate IsHole(f: File, lo: nat, hi: nat)
    requires hi <= |f|
  {
    forall i :: lo <= i < hi ==> f[i].None?
  }

  /** What `read` returns: holes are zeros. */
  function Bytes(f: File): (b: seq<Byte>)
    ensures |b| == |f|
  {
    seq(|f|, i requires 0 <= i < |f| => if f[i].Some? then f[i].value else 0)
  }

  /** lseek(SEEK_DATA): the first data byte at or after `off`; None is ENXIO. */
  function SeekData(f: File, off: nat): (r: Option<nat>)
    ensures r.Some? ==> off <= r.value < |f| && f[r.value].Some?
    ensures IsHole(f, off, if r.Some? then r.value else |f|)
    decreases |f| - off
  {
    if off >= |f| then None
    else if f[off].Some? then Some(off)
    else SeekData(f, off + 1)
  }

  /** lseek(SEEK_HOLE): the first hole at or after `off`; the end of the file counts as one. */
  function SeekHole(f: File, off: nat): (r: nat)
    requires off <= |f|
    ensures off <= r <= |f|
    ensures IsData(f, off, r)
    ensures r < |f| ==> f[r].None?
    decreases |f| - off
  {
    if off == |f| || f[off].None? then off
    else SeekHole(f, off + 1)
  }

  /** One past the last data byte, 0 for a file of holes. */
  function DataEnd(f: File): (n: nat)
    ensures n <= |f|
    ensures n > 0 ==> f[n - 1].Some?
    ensures forall i :: n <= i < |f| ==> f[i].None?
  {
    if f == [] then 0
    else if f[|f| - 1].Some? then |f|
    else
      var g := f[..|f| - 1];
      assert forall i :: 0 <= i < |g| ==> f[i] == g[i];
      DataEnd(g)
  }

  /** `pwrite` at `off`: the file grows when the write ends past it, the gap being a hole. */
  function WriteAt(f: File, off: nat, data: File): (g: File)
    ensures |g| == if data == [] then |f| else Max(|f|, off + |data|)
  {
    if data == [] then f
    else seq(Max(|f|, off + |data|), i requires 0 <= i =>
               if off <= i < off + |data| then data[i - off]
               else if i < |f| then f[i] else None)
  }

  /** The meaning of a rebase: the diff where it has data, the base everywhere else. */
  function Overlay(base: File, diff: File): (f: File)
    ensures |f| == Max(|base|, DataEnd(diff))
    ensures forall i :: 0 <= i < |f| ==>
              f[i] == if i < |diff| && diff[i].Some? then diff[i]
                      else if i < |base| then base[i] else None
  {
    seq(Max(|base|, DataEnd(diff)), i requires 0 <= i =>
      if i < |diff| && diff[i].Some? then diff[i]
      else if i < |base| then base[i] else None)
  }

  /** The data end is the only position with its two properties. */
  lemma DataEndIs(f: File, n: nat)
    requires n <= |f|
    requires n > 0 ==> f[n - 1].Some?
    requires forall i :: n <= i < |f| ==> f[i].None?
    ensures DataEnd(f) == n
  {
  }

  /** Trailing holes of the diff change nothing. */
  lemma OverlayTrailingHoles(base: File, diff: File, k: nat, m: nat)
    requires k <= m <= |diff|
    requires IsHole(diff, k, m)
    ensures Overlay(base, diff[..k]) == Overlay(base, diff[..m])
  {
    var n := DataEnd(diff[..k]);
    assert forall i :: 0 <= i < k ==> diff[..k][i] == diff[..m][i];
    DataEndIs(diff[..m], n);
    var l, r := Overlay(base, diff[..k]), Overlay(base, diff[..m]);
    assert |l| == |r|;
    forall i | 0 <= i < |l| ensures l[i] == r[i] {
      if k <= i < m { assert diff[..m][i].None?; }
    }
  }

  /** Copying the next extent extends the overlaid prefix of the diff by that extent. */
  lemma OverlayNextExtent(base: File, diff: File, off: nat, start: nat, end: nat)
    requires off <= start < end <= |diff|
    requires IsHole(diff, off, start) && IsData(diff, start, end)
    ensures WriteAt(Overlay(base, diff[..off]), start, diff[start..end]) == Overlay(base, diff[..end])
  {
    DataEndIs(diff[..end], end);
    var l := WriteAt(Overlay(base, diff[..off]), start, diff[start..end]);
    var r := Overlay(base, diff[..end]);
    forall i | 0 <= i < |l| ensures l[i] == r[i] {
      if start <= i < end { assert diff[start..end][i - start] == diff[i] == diff[..end][i]; }
    }
  }

  /**
   Stopping anywhere in the diff, inside an extent included, and then rebasing in full gives
   what one uninterrupted rebase gives.
   */
  lemma RebaseResumes(base: File, diff: File, k: nat)
    requires k <= |diff|
    ensures Overlay(Overlay(base, diff[..k]), diff) == Overlay(base, diff)
  {
    var n := DataEnd(diff[..k]);
    if n > 0 { assert diff[..k][n - 1].Some?; assert diff[n - 1].Some?; }
    var part := Overlay(base, diff[..k]);
    var l, r := Overlay(part, diff), Overlay(base, diff);
    forall i | 0 <= i < |l| ensures l[i] == r[i] {
      if i < k && diff[i].Some? { assert diff[..k][i].Some?; }
    }
  }

  /** An open file that is written in place. */
  class HostFile {
    var data: File

    constructor (data: File)
      ensures this.data == data
    {
      this.data := data;
    }

    /**
     Copies every allocated extent of the diff onto this file at the same offset. The disk
     refuses every byte at or past `stopAt`, so the copy is cut short, inside an extent if need be,
     exactly when the diff has data there.
     */
    method ApplySparseDiff(diff: File, stopAt: nat) returns (ok: bool)
      modifies this
      ensures ok <==> DataEnd(diff) <= stopAt
      ensures data == Overlay(old(data), diff[..Min(stopAt, |diff|)])
      ensures ok ==> data == Overlay(old(data), diff)
    {
      var off: nat := 0;
      assert Overlay(data, diff[..0]) == data;
      while true
        invariant off <= |diff|
        invariant off <= stopAt
        invariant data == Overlay(old(data), diff[..off])
        decreases |diff| - off
      {
        var next := SeekData(diff, off);
        if next.None? {
          NothingLeft(old(data), diff, off, stopAt);
          return true;
        }
        var start := next.value;
        var end := SeekHole(diff, start);
        // The source also returns when end <= start; the lseek contracts rule that out.
        assert start < end;
        if stopAt < end {
          // CopyN reports the write error after the bytes that fitted.
          DataPast(diff, end - 1);
          if start < stopAt {
            OverlayNextExtent(old(data), diff, off, start, stopAt);
            data := WriteAt(data, start, diff[start..stopAt]);
          } else {
            OverlayTrailingHoles(old(data), diff, off, stopAt);
          }
          return false;
        }
        OverlayNextExtent(old(data), diff, off, start, end);
        data := WriteAt(data, start, diff[start..end]);
        off := end;
      }
    }
  }

  lemma NothingLeft(base: File, diff: File, off: nat, stopAt: nat)
    requires off <= |diff| && off <= stopAt
    requires IsHole(diff, off, |diff|)
    ensures DataEnd(diff) <= stopAt
    ensures Overlay(base, diff[..off]) == Overlay(base, diff[..Min(stopAt, |diff|)]) == Overlay(base, diff)
  {
    OverlayTrailingHoles(base, diff, off, Min(stopAt, |diff|));
    OverlayTrailingHoles(base, diff, off, |diff|);
    assert diff[..|diff|] == diff;
  }

  lemma DataPast(f: File, i: nat)
    requires i < |f| && f[i].Some?
    ensures DataEnd(f) > i
  {
  }

  /** The memory file of a Full snapshot: every byte allocated. */
  function FullImage(mem: seq<Byte>): (f: File)
    ensures |f| == |mem| && IsData(f, 0, |f|) && Bytes(f) == mem
  {
    seq(|mem|, i requires 0 <= i < |mem| => Some(mem[i]))
  }

  /** The memory file of a Diff snapshot: the dirty pages are data, every other page is a hole. */
  function DiffImage(mem: seq<Byte>, dirty: set<nat>): (f: File)
    ensures |f| == |mem|
  {
    seq(|mem|, i requires 0 <= i < |mem| => if i / PAGE in dirty then Some(mem[i]) else None)
  }

  /** `mem` differs from what `base` reads as on dirty pages only. */
  ghost predicate DiffersOnDirty(base: File, mem: seq<Byte>, dirty: set<nat>) {
    && |base| == |mem|
    && forall i :: 0 <= i < |mem| && Bytes(base)[i] != mem[i] ==> i / PAGE in dirty
  }

  /**
   The heart of the snapshot chain: rebasing the Diff of a machine that was loaded from `base`
   turns `base` into that machine's whole memory.
   */
  lemma RebaseIsMemory(base: File, mem: seq<Byte>, dirty: set<nat>)
    requires DiffersOnDirty(base, mem, dirty)
    ensures Bytes(Overlay(base, DiffImage(mem, dirty))) == mem
  {
    var f := Overlay(base, DiffImage(mem, dirty));
    forall i | 0 <= i < |mem| ensures Bytes(f)[i] == mem[i] {
      if i / PAGE !in dirty { assert Bytes(base)[i] == mem[i]; }
    }
  }

  /** The rebase is exact: were one changed page missing from the Diff, the result would be wrong. */
  lemma RebaseNeedsEveryDirtyPage(base: File, mem: seq<Byte>, dirty: set<nat>)
    requires |base| == |mem|
    ensures Bytes(Overlay(base, DiffImage(mem, dirty))) == mem <==> DiffersOnDirty(base, mem, dirty)
  {
    var f := Overlay(base, DiffImage(mem, dirty));
    if Bytes(f) == mem {
      forall i | 0 <= i < |mem| && Bytes(base)[i] != mem[i] ensures i / PAGE in dirty {
        assert Bytes(f)[i] == mem[i];
      }
    } else if DiffersOnDirty(base, mem, dirty) {
      RebaseIsMemory(base, mem, dirty);
    }
  }

  // ---- a Diff image that was copied ----

  /**
   A copy of a file has its bytes. Where `extents` speaks the copier has chosen what is data; a hole
   can only stand for a zero. Where it is silent the extents are kept.
   */
  function Recopied(f: File, extents: seq<bool>): (c: File)
    ensures |c| == |f| && Bytes(c) == Bytes(f)
    ensures extents == [] ==> c == f
  {
    seq(|f|, i requires 0 <= i < |f| =>
      if i >= |extents| then f[i]
      else if extents[i] || Bytes(f)[i] != 0 then Some(Bytes(f)[i])
      else None)
  }

  /** Every file with the same bytes is such a copy. */
  lemma EveryCopyIsRecopied(f: File, c: File) returns (extents: seq<bool>)
    requires Bytes(c) == Bytes(f)
    ensures Recopied(f, extents) == c
  {
    extents := seq(|c|, i requires 0 <= i < |c| => c[i].Some?);
    forall i | 0 <= i < |c| ensures Recopied(f, extents)[i] == c[i] {
      assert Bytes(c)[i] == Bytes(f)[i];
    }
  }

  /** The extents of a copied Diff still say what the Diff said, as far as it matters for this base. */
  ghost predicate ExtentsServe(base: File, mem: seq<Byte>, dirty: set<nat>, copy: File)
    requires |base| == |copy| == |mem|
  {
    forall i :: 0 <= i < |mem| ==>
                  if i / PAGE in dirty then copy[i].Some? || Bytes(base)[i] == mem[i] else copy[i].None? || mem[i] == 0
  }

  /**
   Rebasing a copy of the Diff gives the memory exactly when no clean byte other than zero became
   data and no changed byte became a hole.
   */
  lemma RebaseOfCopyIff(base: File, mem: seq<Byte>, dirty: set<nat>, copy: File)
    requires DiffersOnDirty(base, mem, dirty) && Bytes(copy) == Bytes(DiffImage(mem, dirty))
    ensures |copy| == |mem|
    ensures Bytes(Overlay(base, copy)) == mem <==> ExtentsServe(base, mem, dirty, copy)
  {
    var f := Overlay(base, copy);
    assert |copy| == |Bytes(copy)|;
    forall i | 0 <= i < |mem|
      ensures Bytes(f)[i] == mem[i] <==>
              if i / PAGE in dirty then copy[i].Some? || Bytes(base)[i] == mem[i] else copy[i].None? || mem[i] == 0
    {
      assert Bytes(copy)[i] == Bytes(DiffImage(mem, dirty))[i];
      if i / PAGE !in dirty { assert Bytes(base)[i] == mem[i]; }
    }
    if Bytes(f) == mem {
      forall i | 0 <= i < |mem|
        ensures if i / PAGE in dirty then copy[i].Some? || Bytes(base)[i] == mem[i] else copy[i].None? || mem[i] == 0
      {
        assert Bytes(f)[i] == mem[i];
      }
    }
  }

  /** The Diff image itself serves every base it was taken for. */
  lemma DiffImageServes(base: File, mem: seq<Byte>, dirty: set<nat>)
    requires |base| == |mem|
    ensures ExtentsServe(base, mem, dirty, DiffImage(mem, dirty))
  {
  }

  /** A copy without holes serves exactly when every clean byte is zero. */
  lemma DenseCopyServesIff(base: File, mem: seq<Byte>, dirty: set<nat>, copy: File)
    requires |base| == |copy| == |mem| && IsData(copy, 0, |copy|)
    ensures ExtentsServe(base, mem, dirty, copy) <==> forall i :: 0 <= i < |mem| && i / PAGE !in dirty ==> mem[i] == 0
  {
  }
}
