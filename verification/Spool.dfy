/**
 The deferred-write spool: a directory of records under a byte cap and a file cap, the
 oldest of which are evicted to make room.

 Files are kept oldest first, which is the order of their names; a new name sorts last.
 */
module Spool {
  import opened Wrappers

  datatype File = File(name: string, size: nat)

  /** The source's file-cap error cannot arise: one record never exceeds a positive cap. */
  datatype Error = ExceedsMaxBytes | RenameFailed

  /** The caps; zero or less means no cap. */
  datatype Caps = Caps(maxBytes: int, maxFiles: int)

  /** The low watermark: nine tenths of a cap, rounded down. */
  function LowWater(cap: int): (target: int)
    ensures cap > 0 ==> 0 <= target <= cap
    ensures 10 * target <= 9 * cap < 10 * target + 10
  {
    cap * 9 / 10
  }

  function Used(files: seq<File>): nat {
    if files == [] then 0 else files[0].size + Used(files[1..])
  }

  /** Adding one more record of `size` bytes would exceed a cap. */
  predicate Over(c: Caps, files: seq<File>, size: nat) {
    || (c.maxBytes > 0 && Used(files) + size > c.maxBytes)
    || (c.maxFiles > 0 && |files| + 1 > c.maxFiles)
  }

  /** Room for a record of `size` bytes with every cap at its low watermark. */
  predicate BelowWater(c: Caps, files: seq<File>, size: nat) {
    && (c.maxBytes <= 0 || Used(files) + size <= LowWater(c.maxBytes))
    && (c.maxFiles <= 0 || |files| + 1 <= LowWater(c.maxFiles))
  }

  /** Within both caps. */
  predicate WithinCaps(c: Caps, files: seq<File>) {
    && (c.maxBytes > 0 ==> Used(files) <= c.maxBytes)
    && (c.maxFiles > 0 ==> |files| <= c.maxFiles)
  }

  /**
   k is the number of files an eviction removes: at least one, the fewest of the oldest
   that bring the rest below the watermark, or all when no number does.
   */
  ghost predicate IsEviction(c: Caps, files: seq<File>, size: nat, k: nat) {
    && 1 <= k <= |files|
    && (forall j :: 1 <= j < k ==> !BelowWater(c, files[j..], size))
    && (k < |files| ==> BelowWater(c, files[k..], size))
  }

  lemma {:induction false} UsedDrop(files: seq<File>, k: nat)
    requires k <= |files|
    ensures Used(files[k..]) <= Used(files)
    ensures k < |files| ==> Used(files[k..]) == files[k].size + Used(files[k + 1..])
    decreases files
  {
    if k == 0 {
      assert files[0..] == files;
    } else {
      assert files[1..][k - 1..] == files[k..];
      assert k < |files| ==> files[1..][k..] == files[k + 1..];
      UsedDrop(files[1..], k - 1);
    }
  }

  lemma {:induction false} UsedAppend(files: seq<File>, f: File)
    ensures Used(files + [f]) == Used(files) + f.size
  {
    if files == [] {
      assert files + [f] == [f] && [f][1..] == [];
    } else {
      assert (files + [f])[1..] == files[1..] + [f];
      UsedAppend(files[1..], f);
    }
  }

  /** A record waiting under its temporary name. */
  function Temp(name: string, size: nat): File {
    File(name + ".tmp", size)
  }

  /**
   A record is accepted exactly when it fits twice without an eviction, or an eviction can
   stop before its own temporary file: there is an older file, and the record fits twice
   below the byte watermark and as a second file below the file watermark.
   */
  predicate Accepted(c: Caps, files: seq<File>, size: nat) {
    || !Over(c, files + [Temp("", size)], size)
    || (&& files != []
        && (c.maxBytes <= 0 || 2 * size <= LowWater(c.maxBytes))
        && (c.maxFiles <= 0 || 2 <= LowWater(c.maxFiles)))
  }

  /** Emptying the directory down to the newest file is the best an eviction can do for it. */
  lemma BestEviction(c: Caps, files: seq<File>, f: File, size: nat, k: nat)
    requires k <= |files| && size == f.size
    ensures BelowWater(c, (files + [f])[k..], size) ==>
              (c.maxBytes <= 0 || 2 * size <= LowWater(c.maxBytes)) && (c.maxFiles <= 0 || 2 <= LowWater(c.maxFiles))
    ensures k == |files| ==>
              (BelowWater(c, (files + [f])[k..], size) <==>
               (c.maxBytes <= 0 || 2 * size <= LowWater(c.maxBytes)) && (c.maxFiles <= 0 || 2 <= LowWater(c.maxFiles)))
  {
    assert (files + [f])[k..] == files[k..] + [f];
    UsedAppend(files[k..], f);
  }

  lemma SameCost(c: Caps, files: seq<File>, a: File, b: File, size: nat)
    requires a.size == b.size
    ensures Over(c, files + [a], size) <==> Over(c, files + [b], size)
    ensures WithinCaps(c, files + [a]) <==> WithinCaps(c, files + [b])
  {
    UsedAppend(files, a);
    UsedAppend(files, b);
  }

  lemma SameEviction(c: Caps, files: seq<File>, a: File, b: File, size: nat, k: nat)
    requires a.size == b.size && IsEviction(c, files + [a], size, k)
    ensures IsEviction(c, files + [b], size, k)
  {
    forall j | 0 <= j <= |files|
      ensures BelowWater(c, (files + [a])[j..], size) <==> BelowWater(c, (files + [b])[j..], size)
    {
      assert (files + [a])[j..] == files[j..] + [a] && (files + [b])[j..] == files[j..] + [b];
      UsedAppend(files[j..], a);
      UsedAppend(files[j..], b);
    }
  }

  /** An eviction spares the temporary file exactly when the record is accepted, and then what is left fits. */
  lemma EvictionSpares(c: Caps, files: seq<File>, f: File, k: nat)
    requires Over(c, files + [f], f.size) && IsEviction(c, files + [f], f.size, k)
    ensures k <= |files| <==> Accepted(c, files, f.size)
    ensures k <= |files| ==> WithinCaps(c, files[k..] + [f])
  {
    SameCost(c, files, f, Temp("", f.size), f.size);
    if k <= |files| {
      BestEviction(c, files, f, f.size, k);
      assert (files + [f])[k..] == files[k..] + [f];
    }
    BestEviction(c, files, f, f.size, |files|);
  }

  /** What one enqueue does to the directory, `evicted` oldest files removed. */
  ghost predicate Enqueued(c: Caps, files: seq<File>, r: File, err: Option<Error>, evicted: nat, files': seq<File>) {
    && (err == None <==> Accepted(c, files, r.size))
    && (err == None ==> evicted <= |files| && files' == files[evicted..] + [r])
    && (err == None ==>
          if Over(c, files + [r], r.size) then IsEviction(c, files + [r], r.size, evicted) else evicted == 0)
    && (err != None ==> files' == [])
    && WithinCaps(c, files')
  }

  /** With `rest` left, a record of `size` bytes fits twice within nine tenths of each cap. */
  ghost predicate Spacious(c: Caps, rest: seq<File>, size: nat) {
    && (c.maxBytes > 0 ==> 10 * (Used(rest) + 2 * size) <= 9 * c.maxBytes)
    && (c.maxFiles > 0 ==> 10 * (|rest| + 2) <= 9 * c.maxFiles)
  }

  /** A record of `size` bytes fits twice within the caps with everything else at rest. */
  ghost predicate FitsTwice(c: Caps, files: seq<File>, size: nat) {
    && (c.maxBytes > 0 ==> Used(files) + 2 * size <= c.maxBytes)
    && (c.maxFiles > 0 ==> |files| + 2 <= c.maxFiles)
  }

  /**
   How an enqueue goes. The record counts twice, as the temporary file already there and as
   the file to come. While that fits within the caps nothing is evicted; otherwise the
   oldest files go, as few as leave it within nine tenths of each cap, and the record is
   refused when that would take its own temporary file.
   */
  lemma EnqueueEvicts(c: Caps, files: seq<File>, r: File, err: Option<Error>, evicted: nat, files': seq<File>)
    requires Enqueued(c, files, r, err, evicted, files')
    ensures FitsTwice(c, files, r.size) ==> err == None && files' == files + [r]
    ensures !FitsTwice(c, files, r.size) && err == None ==>
              && 1 <= evicted <= |files| && files' == files[evicted..] + [r]
              && Spacious(c, files[evicted..], r.size)
              && forall j :: 1 <= j < evicted ==> !Spacious(c, files[j..], r.size)
    ensures !FitsTwice(c, files, r.size) && err != None ==>
              files' == [] && forall j :: 1 <= j <= |files| ==> !Spacious(c, files[j..], r.size)
  {
    UsedAppend(files, r);
    UsedAppend(files, Temp("", r.size));
    forall j | 1 <= j <= |files|
      ensures (files + [r])[j..] == files[j..] + [r]
      ensures BelowWater(c, (files + [r])[j..], r.size) <==> Spacious(c, files[j..], r.size)
      ensures Spacious(c, files[j..], r.size) ==> Accepted(c, files, r.size)
    {
      assert (files + [r])[j..] == files[j..] + [r];
      UsedAppend(files[j..], r);
    }
  }

  /** A run of enqueues: the directory before and after each record, and how each went. */
  ghost predicate Run(c: Caps, dirs: seq<seq<File>>, records: seq<File>, errs: seq<Option<Error>>, evictions: seq<nat>) {
    && |dirs| == |records| + 1 && |errs| == |evictions| == |records|
    && forall j :: 0 <= j < |records| ==> Enqueued(c, dirs[j], records[j], errs[j], evictions[j], dirs[j + 1])
  }

  /** The accepted ones of the first j records. */
  function Written(records: seq<File>, errs: seq<Option<Error>>, j: nat): seq<File>
    requires j <= |records| == |errs|
  {
    if j == 0 then []
    else Written(records, errs, j - 1) + if errs[j - 1] == None then [records[j - 1]] else []
  }

  ghost predicate IsSuffix(a: seq<File>, b: seq<File>) {
    |a| <= |b| && b[|b| - |a|..] == a
  }

  /**
   Over any run, whether the calls succeed or fail, the bytes and files at rest stay within
   the caps, and what is at rest is always the newest of what was written, in order.
   */
  lemma {:induction false} RunKeeps(
    c: Caps, dirs: seq<seq<File>>, records: seq<File>, errs: seq<Option<Error>>, evictions: seq<nat>, j: nat)
    requires Run(c, dirs, records, errs, evictions) && j <= |records|
    requires WithinCaps(c, dirs[0])
    ensures WithinCaps(c, dirs[j])
    ensures IsSuffix(dirs[j], dirs[0] + Written(records, errs, j))
  {
    if j > 0 {
      RunKeeps(c, dirs, records, errs, evictions, j - 1);
      assert Enqueued(c, dirs[j - 1], records[j - 1], errs[j - 1], evictions[j - 1], dirs[j - 1 + 1]);
      var before := dirs[0] + Written(records, errs, j - 1);
      if errs[j - 1] == None {
        assert dirs[0] + Written(records, errs, j) == before + [records[j - 1]];
      }
    }
  }

  class Spool {
    const caps: Caps
    var files: seq<File>

    /** One gibibyte, any number of files. */
    constructor ()
      ensures caps == Caps(0x4000_0000, 0) && files == []
    {
      caps := Caps(0x4000_0000, 0);
      files := [];
    }

    /** `evicted` is the number of oldest files removed. */
    method EnforceCapacity(newSize: nat) returns (err: Option<Error>, ghost evicted: nat)
      modifies this
      ensures !Over(caps, old(files), newSize) ==> err == None && evicted == 0
      ensures Over(caps, old(files), newSize) && old(files) != [] ==>
                IsEviction(caps, old(files), newSize, evicted)
      ensures evicted <= |old(files)| && files == old(files)[evicted..]
      ensures err == (if caps.maxBytes > 0 && newSize > caps.maxBytes then Some(ExceedsMaxBytes) else None)
      ensures err != None ==> files == []
    {
      evicted := 0;
      var hasByteCap := caps.maxBytes > 0;
      var hasFileCap := caps.maxFiles > 0;
      if !hasByteCap && !hasFileCap { return None, 0; }
      var names := files;
      var used: int := Used(names);
      var count: int := |names|;
      var overBytes := hasByteCap && used + newSize > caps.maxBytes;
      var overFiles := hasFileCap && count + 1 > caps.maxFiles;
      if !overBytes && !overFiles { return None, 0; }
      for k := 0 to |names|
        invariant files == names[k..] && used == Used(names[k..]) && count == |names| - k
        invariant forall j :: 1 <= j <= k ==> !BelowWater(caps, names[j..], newSize)
      {
        UsedDrop(names, k);
        assert names[k..][1..] == names[k + 1..];
        used := used - names[k].size;
        files := files[1..];
        count := count - 1;
        if (!hasByteCap || used + newSize <= LowWater(caps.maxBytes)) &&
           (!hasFileCap || count + 1 <= LowWater(caps.maxFiles)) {
          return None, k + 1;
        }
      }
      evicted := |names|;
      if hasByteCap && newSize > caps.maxBytes { return Some(ExceedsMaxBytes), evicted; }
      return None, evicted;
    }

    /**
     Writes a record of `size` bytes under a temporary name, makes room, and renames it.
     */
    method Enqueue(name: string, size: nat) returns (err: Option<Error>, ghost evicted: nat)
      modifies this
      ensures Enqueued(caps, old(files), File(name, size), err, evicted, files)
      ensures err == Some(ExceedsMaxBytes) <==> caps.maxBytes > 0 && size > caps.maxBytes
    {
      ghost var before := files;
      var tmp := Temp(name, size);
      files := files + [tmp];
      SameCost(caps, before, tmp, Temp("", size), size);
      var failed, removed := EnforceCapacity(size);
      evicted := removed;
      SameCost(caps, before, tmp, File(name, size), size);
      if Over(caps, before + [tmp], size) {
        EvictionSpares(caps, before, tmp, removed);
        SameEviction(caps, before, tmp, File(name, size), size, removed);
      }
      if failed.Some? {
        return failed, evicted;
      }
      assert removed <= |before| ==> files == before[removed..] + [tmp];
      if files == [] || files[|files| - 1] != tmp {
        return Some(RenameFailed), evicted;
      }
      SameCost(caps, before[removed..], tmp, File(name, size), size);
      files := files[..|files| - 1] + [File(name, size)];
      return None, evicted;
    }
  }
}
