/**
 * Path-name splitting of the file system layer: `GetNextPart` extracts the
 * next '/'-separated component of a path into a fixed buffer of
 * NAME_MAX + 1 characters and advances the caller's cursor past it.
 *
 * A C string is modelled by the characters before its terminator; the
 * terminator itself is read at position |path|.
 */
module PathParser {

  /** Longest file-name component (`NAME_MAX` of directory.h). */
  const NAME_MAX: nat := 14

  /** The character at position `i` of the C string, the terminator at its end. */
  function At(path: seq<char>, i: nat): char
  {
    if i < |path| then path[i] else '\0'
  }

  /** A C string holds no terminator before its end. */
  ghost predicate IsCString(path: seq<char>)
  {
    forall k :: 0 <= k < |path| ==> path[k] != '\0'
  }

  /** The first position at or after `i` that does not hold a '/'. */
  function SkipSlashes(path: seq<char>, i: nat): (j: nat)
    requires i <= |path|
    ensures i <= j <= |path|
    ensures forall k :: i <= k < j ==> path[k] == '/'
    ensures j == |path| || path[j] != '/'
    decreases |path| - i
  {
    if i < |path| && path[i] == '/' then SkipSlashes(path, i + 1) else i
  }

  /** The first position at or after `i` that holds a '/' or is the end: the end of the component at `i`. */
  function ComponentEnd(path: seq<char>, i: nat): (j: nat)
    requires i <= |path|
    ensures i <= j <= |path|
    ensures forall k :: i <= k < j ==> path[k] != '/'
    ensures j == |path| || path[j] == '/'
    decreases |path| - i
  {
    if i < |path| && path[i] != '/' then ComponentEnd(path, i + 1) else i
  }

  /**
   * Skips the slashes at `srcp`, then copies the component that follows
   * into `part`.  Returns 0 with the cursor unchanged when only slashes are
   * left; -1 with the cursor unchanged when the component is longer than
   * NAME_MAX (after NAME_MAX characters have been copied); otherwise the
   * component, null-terminated, is in `part`, the cursor is just past it,
   * and the result is 0 when the path ends there and 1 when more follows.
   */
  method GetNextPart(part: array<char>, path: seq<char>, srcp: nat) returns (result: int, srcpOut: nat)
    requires part.Length == NAME_MAX + 1
    requires IsCString(path) && srcp <= |path|
    modifies part
    ensures var start := SkipSlashes(path, srcp);
            start == |path| ==> result == 0 && srcpOut == srcp && part[..] == old(part[..])
    ensures var start := SkipSlashes(path, srcp); var stop := ComponentEnd(path, start);
            start < |path| && stop - start > NAME_MAX ==>
              result == -1 && srcpOut == srcp &&
              part[..NAME_MAX] == path[start..start + NAME_MAX] && part[NAME_MAX] == old(part[NAME_MAX])
    ensures var start := SkipSlashes(path, srcp); var stop := ComponentEnd(path, start);
            start < |path| && stop - start <= NAME_MAX ==>
              srcpOut == stop &&
              part[..stop - start] == path[start..stop] && part[stop - start] == '\0' &&
              part[stop - start + 1..] == old(part[stop - start + 1..]) &&
              result == (if stop == |path| then 0 else 1)
  {
    var src := srcp;
    while At(path, src) == '/'
      invariant srcp <= src <= |path|
      invariant SkipSlashes(path, src) == SkipSlashes(path, srcp)
      decreases |path| - src
    {
      src := src + 1;
    }
    if At(path, src) == '\0' {
      return 0, srcp;
    }
    var start := src;
    var ok;
    src, ok := CopyComponent(part, path, src);
    if !ok {
      return -1, srcp;
    }
    var dst := src - start;
    ghost var tail := part[dst + 1..];
    part[dst] := '\0';
    assert part[dst + 1..] == tail;
    srcpOut := src;
    if At(path, src) == '\0' {
      return 0, srcpOut;
    }
    return 1, srcpOut;
  }

  /**
   * The copying loop of `get_next_part`: copies the component at `start`
   * into `part` and answers whether it fits in NAME_MAX characters; when it
   * does not, the first NAME_MAX characters have been copied.
   */
  method CopyComponent(part: array<char>, path: seq<char>, start: nat) returns (src: nat, ok: bool)
    requires part.Length == NAME_MAX + 1
    requires IsCString(path) && start <= |path|
    modifies part
    ensures ok <==> ComponentEnd(path, start) - start <= NAME_MAX
    ensures ok ==> src == ComponentEnd(path, start) &&
                   part[..src - start] == path[start..src] && part[src - start..] == old(part[src - start..])
    ensures !ok ==> part[..NAME_MAX] == path[start..start + NAME_MAX] && part[NAME_MAX] == old(part[NAME_MAX])
  {
    src := start;
    var dst := 0;
    while At(path, src) != '/' && At(path, src) != '\0'
      invariant start <= src <= |path|
      invariant ComponentEnd(path, src) == ComponentEnd(path, start)
      invariant dst == src - start && dst <= NAME_MAX
      invariant part[..dst] == path[start..src]
      invariant part[dst..] == old(part[dst..])
      decreases |path| - src
    {
      if dst < NAME_MAX {
        part[dst] := path[src];
        dst := dst + 1;
      } else {
        assert part[..NAME_MAX] == path[start..start + NAME_MAX];
        return src, false;
      }
      src := src + 1;
    }
    return src, true;
  }
}
