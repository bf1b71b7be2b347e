/**
 * The per-process file-descriptor table of the system-call layer: a list of
 * descriptor pairs kept sorted by descriptor number.  `FindFreeFd` inserts a
 * new pair under the smallest free descriptor (0 and 1 are the console and are
 * never handed out), `GetFilePair` looks a descriptor up.
 */
module FdTable {

  datatype Option<T> = None | Some(value: T)

  /** First descriptor handed out to files and directories. */
  const FIRST_FD: int := 2

  /**
   * One `fd_pair` of the list.  `file` and `dir` stand for the `struct file *`
   * and `struct dir *` pointers, None being NULL; exactly one of them is used,
   * as `isDir` says.
   */
  datatype FdPair = FdPair(fd: int, file: Option<nat>, dir: Option<nat>, isDir: bool)

  /** The pair that `find_free_fd` fills in before choosing its descriptor. */
  function NewPair(fd: int, file: Option<nat>, dir: Option<nat>, isDir: bool): (p: FdPair)
    ensures p.fd == fd && p.isDir == isDir
    ensures isDir ==> p.dir == dir && p.file == None
    ensures !isDir ==> p.file == file && p.dir == None
  {
    if isDir then FdPair(fd, None, dir, true) else FdPair(fd, file, None, false)
  }

  /** The descriptor numbers of a list, in list order. */
  function Fds(s: seq<FdPair>): (r: seq<int>)
    ensures |r| == |s| && forall i :: 0 <= i < |s| ==> r[i] == s[i].fd
  {
    if s == [] then [] else [s[0].fd] + Fds(s[1..])
  }

  /** Strictly ascending descriptors, none below FIRST_FD: the shape every table keeps. */
  ghost predicate SortedFrom(fds: seq<int>, lo: int)
  {
    (forall i :: 0 <= i < |fds| ==> lo <= fds[i]) &&
    (forall i, j :: 0 <= i < j < |fds| ==> fds[i] < fds[j])
  }

  /**
   * Reference definition of the descriptor to hand out: walking an ascending
   * list, the first candidate that the list does not hold.
   */
  function LowestFree(fds: seq<int>, from: int): int
  {
    if fds == [] || fds[0] != from then from else LowestFree(fds[1..], from + 1)
  }

  /** LowestFree is the least integer at or above `from` that the list lacks. */
  lemma {:induction false} LowestFreeIsLeast(fds: seq<int>, from: int)
    requires SortedFrom(fds, from)
    ensures LowestFree(fds, from) >= from
    ensures LowestFree(fds, from) !in fds
    ensures forall y :: from <= y < LowestFree(fds, from) ==> y in fds
  {
    if fds != [] && fds[0] == from {
      var rest := fds[1..];
      assert SortedFrom(rest, from + 1) by {
        forall i | 0 <= i < |rest| ensures from + 1 <= rest[i] {
          assert fds[0] < fds[i + 1];
        }
      }
      LowestFreeIsLeast(rest, from + 1);
      var r := LowestFree(rest, from + 1);
      assert r !in fds by {
        assert fds == [fds[0]] + rest;
      }
      forall y | from <= y < r ensures y in fds {
        if y != from {
          assert y in rest;
        }
      }
    }
  }

  /** When the list holds no gap, the descriptor handed out is one past its last. */
  lemma {:induction false} LowestFreeWithoutGap(fds: seq<int>, from: int)
    requires forall i :: 0 <= i < |fds| ==> fds[i] == from + i
    ensures LowestFree(fds, from) == from + |fds|
  {
    if fds != [] {
      LowestFreeWithoutGap(fds[1..], from + 1);
    }
  }

  /** With a gap the descriptor handed out is the first missing one, before the entry after the gap. */
  lemma {:induction false} LowestFreeAtGap(fds: seq<int>, from: int, g: nat)
    requires g < |fds|
    requires forall i :: 0 <= i < g ==> fds[i] == from + i
    requires fds[g] != from + g
    ensures LowestFree(fds, from) == from + g
  {
    if g > 0 {
      LowestFreeAtGap(fds[1..], from + 1, g - 1);
    }
  }

  /** Strictly ascending pairs, none below FIRST_FD. */
  ghost predicate Ascending(s: seq<FdPair>)
  {
    (forall i :: 0 <= i < |s| ==> FIRST_FD <= s[i].fd) &&
    (forall i, j :: 0 <= i < j < |s| ==> s[i].fd < s[j].fd)
  }

  lemma AscendingFds(s: seq<FdPair>)
    requires Ascending(s)
    ensures SortedFrom(Fds(s), FIRST_FD)
  {
  }

  /** Inserting a pair whose descriptor lies between its neighbours keeps the list ascending. */
  lemma InsertKeepsAscending(s: seq<FdPair>, p: nat, x: FdPair)
    requires Ascending(s) && p <= |s| && FIRST_FD <= x.fd
    requires p > 0 ==> s[p - 1].fd < x.fd
    requires p < |s| ==> x.fd < s[p].fd
    ensures Ascending(s[..p] + [x] + s[p..])
  {
    var t := s[..p] + [x] + s[p..];
    forall i, j | 0 <= i < j < |t| ensures t[i].fd < t[j].fd {
      if i < p && j > p { assert s[i].fd <= s[p - 1].fd; }
      if i == p && j > p + 1 { assert s[p].fd <= s[j - 1].fd; }
    }
  }

  /**
   * The scan of `find_free_fd` as written, on a list whose descriptors are
   * all at least FIRST_FD: the descriptor it chooses and the position at
   * which its pair lands.  At a gap the code calls `list_insert (prev_elem,
   * ...)`, and `list_insert` links its element just BEFORE its first
   * argument, so the pair lands at the predecessor's position `prevPos`
   * rather than after it.
   */
  function ScanAsWritten(s: seq<FdPair>, i: nat, fdPrev: int, prevPos: nat): (r: (int, nat))
    requires i <= |s| && prevPos <= |s|
    requires forall k :: 0 <= k < |s| ==> FIRST_FD <= s[k].fd
    requires fdPrev == -1 <==> i == 0
    requires fdPrev != -1 ==> FIRST_FD <= fdPrev
    ensures r.1 <= |s| && FIRST_FD <= r.0
    decreases |s| - i
  {
    if i == |s| then (if fdPrev != -1 then fdPrev + 1 else 2, |s|)
    else if fdPrev == -1 && s[i].fd == 2 then ScanAsWritten(s, i + 1, s[i].fd, i)
    else if fdPrev == -1 then (2, 0)
    else if s[i].fd > fdPrev + 1 then (fdPrev + 1, prevPos)
    else ScanAsWritten(s, i + 1, s[i].fd, i)
  }

  /** `find_free_fd` as written: the descriptor and the list after the insertion. */
  function FindFreeFdAsWritten(s: seq<FdPair>, file: Option<nat>, dir: Option<nat>, isDir: bool): (r: (int, seq<FdPair>))
    requires forall k :: 0 <= k < |s| ==> FIRST_FD <= s[k].fd
    ensures |r.1| == |s| + 1 && FIRST_FD <= r.0
    ensures forall k :: 0 <= k < |r.1| ==> FIRST_FD <= r.1[k].fd
    ensures exists p :: 0 <= p <= |s| && r.1 == s[..p] + [NewPair(r.0, file, dir, isDir)] + s[p..]
  {
    var (fd, p) := ScanAsWritten(s, 0, -1, 0);
    (fd, s[..p] + [NewPair(fd, file, dir, isDir)] + s[p..])
  }

  /**
   * As written, the table [2, 4] gets descriptor 3 in front of 2, and the
   * next call, seeing 3 first, hands out 2 a second time.
   */
  lemma AsWrittenReusesDescriptor(f1: nat, f2: nat)
    ensures var s0 := [NewPair(2, Some(f1), None, false), NewPair(4, Some(f2), None, false)];
            var (fd1, s1) := FindFreeFdAsWritten(s0, Some(f1), None, false);
            var (fd2, s2) := FindFreeFdAsWritten(s1, Some(f2), None, false);
            fd1 == 3 && Fds(s1) == [3, 2, 4] && !Ascending(s1) &&
            fd2 == 2 && 2 in Fds(s1) && Fds(s2) == [2, 3, 2, 4]
  {
    var s0 := [NewPair(2, Some(f1), None, false), NewPair(4, Some(f2), None, false)];
    assert ScanAsWritten(s0, 0, -1, 0) == (3, 0);
    var s1 := FindFreeFdAsWritten(s0, Some(f1), None, false).1;
    assert s1 == [NewPair(3, Some(f1), None, false)] + s0;
    assert s1[0].fd == 3 && s1[1].fd == 2;
    assert ScanAsWritten(s1, 0, -1, 0) == (2, 0);
  }

  class FdList {
    /** The `fd_list` of the current thread, head first. */
    var entries: seq<FdPair>

    ghost predicate Valid()
      reads this
    {
      Ascending(entries)
    }

    constructor ()
      ensures Valid() && entries == []
    {
      entries := [];
    }

    /**
     * Looks the descriptor up: the first pair that carries it, or None
     * (the NULL pointer) when no pair does.
     */
    method GetFilePair(fd: int) returns (r: Option<FdPair>)
      ensures r.None? <==> forall i :: 0 <= i < |entries| ==> entries[i].fd != fd
      ensures r.Some? ==> exists i :: 0 <= i < |entries| && entries[i] == r.value && r.value.fd == fd &&
                                      forall j :: 0 <= j < i ==> entries[j].fd != fd
    {
      var i := 0;
      while i < |entries|
        invariant 0 <= i <= |entries|
        invariant forall j :: 0 <= j < i ==> entries[j].fd != fd
      {
        var pair := entries[i];
        if pair.fd == fd {
          return Some(pair);
        }
        i := i + 1;
      }
      return None;
    }

    /**
     * The scan of `find_free_fd`: the smallest free descriptor and the
     * position at which its pair goes so that the list stays ascending.
     */
    method ChooseFd() returns (fd: int, pos: nat)
      requires Valid()
      ensures fd == LowestFree(Fds(entries), FIRST_FD)
      ensures pos <= |entries| && FIRST_FD <= fd
      ensures pos > 0 ==> entries[pos - 1].fd < fd
      ensures pos < |entries| ==> fd < entries[pos].fd
      ensures (forall k :: 0 <= k < |entries| ==> entries[k].fd == FIRST_FD + k) ==> pos == |entries|
    {
      ghost var fds := Fds(entries);
      var fdPrev := -1;
      var prevPos := 0;
      var i := 0;
      while i < |entries|
        invariant 0 <= i <= |entries|
        invariant forall k :: 0 <= k < i ==> entries[k].fd == FIRST_FD + k
        invariant fdPrev == if i == 0 then -1 else FIRST_FD + i - 1
        invariant i > 0 ==> prevPos == i - 1
      {
        var pair := entries[i];
        if fdPrev == -1 && pair.fd == 2 {
          fdPrev := pair.fd;
          prevPos := i;
          i := i + 1;
          continue;
        } else if fdPrev == -1 && pair.fd > 2 {
          LowestFreeAtGap(fds, FIRST_FD, 0);
          return 2, 0;
        }
        if pair.fd > fdPrev + 1 {
          LowestFreeAtGap(fds, FIRST_FD, i);
          return fdPrev + 1, prevPos + 1;
        }
        assert i > 0 ==> entries[i - 1].fd < pair.fd;
        fdPrev := pair.fd;
        prevPos := i;
        i := i + 1;
      }
      if fdPrev != -1 {
        fd := fdPrev + 1;
      } else {
        fd := 2;
      }
      LowestFreeWithoutGap(fds, FIRST_FD);
      pos := |entries|;
    }

    /**
     * `find_free_fd`: chooses the smallest free descriptor, links a new
     * pair for the file or directory under it so that the list stays
     * ascending, and returns it.
     */
    method FindFreeFd(file: Option<nat>, dir: Option<nat>, isDir: bool) returns (fd: int)
      requires Valid()
      modifies this
      ensures Valid()
      ensures fd == LowestFree(Fds(old(entries)), FIRST_FD)
      ensures exists p :: 0 <= p <= |old(entries)| &&
                entries == old(entries)[..p] + [NewPair(fd, file, dir, isDir)] + old(entries)[p..]
      ensures (forall k :: 0 <= k < |old(entries)| ==> old(entries)[k].fd == FIRST_FD + k) ==>
                entries == old(entries) + [NewPair(fd, file, dir, isDir)]
    {
      var pos;
      fd, pos := ChooseFd();
      InsertAt(pos, NewPair(fd, file, dir, isDir));
      assert old(entries)[..|old(entries)|] == old(entries) && old(entries)[|old(entries)|..] == [];
    }

    /** Links `x` into the list so that it becomes its `p`-th pair (list_insert / list_push_front / list_push_back). */
    method InsertAt(p: nat, x: FdPair)
      requires Valid() && p <= |entries| && FIRST_FD <= x.fd
      requires p > 0 ==> entries[p - 1].fd < x.fd
      requires p < |entries| ==> x.fd < entries[p].fd
      modifies this
      ensures Valid()
      ensures entries == old(entries)[..p] + [x] + old(entries)[p..]
    {
      InsertKeepsAscending(entries, p, x);
      entries := entries[..p] + [x] + entries[p..];
    }
  }
}
