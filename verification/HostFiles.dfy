/**
 The host filesystem as one reader meets it: other processes may change anything between two
 of its system calls, and a metadata sample is all it has to notice.
 */
module HostFiles {
  import opened Base

  type Inode = nat

  datatype Version = Version(content: Bytes, mtime: int, ctime: int, executable: bool)

  datatype Metadata = Metadata(device: int, inode: int, size: int, mtime: int, ctime: int, executable: bool)

  datatype Disk = Disk(device: nat, names: map<Path, Inode>, files: map<Inode, Version>)

  predicate Present(d: Disk, p: Path) {
    p in d.names && d.names[p] in d.files
  }

  function Content(d: Disk, p: Path): Bytes
    requires Present(d, p)
  {
    d.files[d.names[p]].content
  }

  /** `path.stat()`; `None` where it raises FileNotFoundError. */
  function Stat(d: Disk, p: Path): Option<Metadata> {
    if !Present(d, p) then None
    else
      var v := d.files[d.names[p]];
      Some(Metadata(d.device, d.names[p], |v.content|, v.mtime, v.ctime, v.executable))
  }

  /** Everything other processes ever do: the disk at each moment. */
  type Plan = nat -> Disk

  predicate SameFile(d: Disk, e: Disk, p: Path) {
    Present(d, p) && Present(e, p) && d.names[p] == e.names[p] && Content(d, p) == Content(e, p)
  }

  /**
   Metadata never repeats across a content change: a path that shows the same metadata at two
   moments named the same file with the same bytes all the way between them.
   */
  ghost predicate Honest(plan: Plan) {
    forall p: Path, i: nat, j: nat, k: nat {:trigger SameFile(plan(i), plan(k), p), Stat(plan(j), p)} ::
      i <= k <= j && Stat(plan(i), p).Some? && Stat(plan(i), p) == Stat(plan(j), p) ==> SameFile(plan(i), plan(k), p)
  }

  /** A disk that stays as it is is an honest one. */
  lemma StillIsHonest(d: Disk)
    ensures Honest(_ => d)
  {
  }

  /** An open file keeps the same bytes at every moment of a window. */
  ghost predicate Steady(plan: Plan, start: nat, end: nat, h: Inode, content: Bytes) {
    forall t: nat :: start < t <= end ==> h in plan(t).files && plan(t).files[h].content == content
  }

  /** Nothing about a path changes in a window. */
  ghost predicate Quiet(plan: Plan, start: nat, end: nat, p: Path) {
    forall t: nat :: start <= t <= end ==> Stat(plan(t), p) == Stat(plan(start), p)
  }

  /** What one raw read may return: part of what is there, nothing only at the end. */
  predicate ReadResult(d: Disk, h: Inode, offset: nat, want: nat, chunk: Bytes) {
    if h !in d.files || want == 0 || offset >= |d.files[h].content| then chunk == []
    else
      && 0 < |chunk| <= want && offset + |chunk| <= |d.files[h].content|
      && chunk == d.files[h].content[offset..offset + |chunk|]
  }

  class Host {
    const plan: Plan
    /** No file ever outgrows the disk. */
    const capacity: nat
    var now: nat

    ghost predicate Valid() {
      forall t: nat, n :: n in plan(t).files ==> |plan(t).files[n].content| <= capacity
    }

    constructor (plan: Plan, capacity: nat)
      requires forall t: nat, n :: n in plan(t).files ==> |plan(t).files[n].content| <= capacity
      ensures Valid() && this.plan == plan && now == 0
    {
      this.plan, this.capacity, now := plan, capacity, 0;
    }

    method StatFile(p: Path) returns (m: Option<Metadata>)
      modifies this`now
      ensures now == old(now) + 1 && m == Stat(plan(now), p)
    {
      now := now + 1;
      m := Stat(plan(now), p);
    }

    method Open(p: Path) returns (h: Option<Inode>)
      modifies this`now
      ensures now == old(now) + 1
      ensures h == if Present(plan(now), p) then Some(plan(now).names[p]) else None
    {
      now := now + 1;
      h := if Present(plan(now), p) then Some(plan(now).names[p]) else None;
    }

    /** One raw read: at most `want` bytes, possibly fewer, none only at the end of the file. */
    method Read(h: Inode, offset: nat, want: nat) returns (chunk: Bytes)
      requires Valid()
      modifies this`now
      ensures now == old(now) + 1
      ensures ReadResult(plan(now), h, offset, want, chunk)
    {
      now := now + 1;
      chunk := [];
      if h in plan(now).files && want > 0 && offset < |plan(now).files[h].content| {
        var c := plan(now).files[h].content;
        var n :| 0 < n <= want && offset + n <= |c|;
        chunk := c[offset..offset + n];
      }
    }
  }
}
