/** Offset and limit paging of the list endpoint (irods_rest_list_api_implementation.h). */
module Paging {
  import opened Bytes

  const INT_MAX: int := 0x7FFF_FFFF
  const INT_MIN: int := -0x8000_0000

  /** An offset or a limit as `std::stoi` returns it. */
  type int32 = x: int | INT_MIN <= x <= INT_MAX

  /** The entries from `i` on that one request returns. A limit that is not positive does not limit. */
  function Page<T>(entries: seq<T>, offset: int, limit: int): seq<T> {
    var from := if offset <= 0 then 0 else if offset >= |entries| then |entries| else offset;
    var to := if limit <= 0 || from + limit >= |entries| then |entries| else from + limit;
    entries[from..to]
  }

  /** The listing loop of `operator()`, with its `continue` and `break`. */
  method ListPage<T>(entries: seq<T>, offset: int32, limit: int32) returns (objects: seq<T>)
    ensures objects == Page(entries, offset, limit)
  {
    objects := [];
    var offsetCounter, limitCounter := 0, 0;
    var skipped := if offset <= 0 then 0 else offset;
    for i := 0 to |entries|
      invariant offsetCounter == (if i < skipped then i else skipped)
      invariant limitCounter == i - offsetCounter == |objects|
      invariant limit > 0 ==> limitCounter < limit
      invariant objects == entries[offsetCounter..i]
    {
      if offset > 0 && offsetCounter < offset {
        offsetCounter := offsetCounter + 1;
        continue;
      }
      objects := objects + [entries[i]];
      limitCounter := limitCounter + 1;
      if limit > 0 && limitCounter >= limit {
        break;
      }
    }
  }

  /** The offset in the `next` link. */
  function NextOffset(offset: int, limit: int): int {
    offset + limit
  }

  /** The offset in the `prev` link. */
  function PrevOffset(offset: int, limit: int): int {
    if offset - limit > 0 then offset - limit else 0
  }

  /** The page is the slice from the offset to the offset plus the limit, clipped to the listing; a limit that is not
      positive does not limit, and an offset that is not positive skips nothing. */
  lemma PageIsSlice<T>(entries: seq<T>, offset: int, limit: int, k: nat)
    ensures var page, skipped := Page(entries, offset, limit), if offset > 0 then offset else 0;
      && (k < |page| <==> (limit > 0 ==> k < limit) && skipped + k < |entries|)
      && (k < |page| ==> page[k] == entries[skipped + k])
  {
  }

  /** What a client gets who asks for page after page, following `next` until a page is empty; None when `stoi`
      rejects the limit or an offset on the way. */
  function Followed<T>(entries: seq<T>, offset: nat, limit: int): Option<seq<T>>
    requires limit > 0
    decreases if offset > |entries| then 0 else |entries| + 1 - offset
  {
    if offset > INT_MAX || limit > INT_MAX then None else
      var page := Page(entries, offset, limit);
      if page == [] then Some([]) else
        match Followed(entries, NextOffset(offset, limit), limit)
        case None => None
        case Some(rest) => Some(page + rest)
  }

  /** The offset of the first empty page that `next` leads to. */
  function EndOffset(length: nat, offset: nat, limit: int): int
    requires limit > 0
  {
    if offset >= length then offset else offset + (length - offset + limit - 1) / limit * limit
  }

  /** Skipping a page leads to the same end. */
  lemma {:induction false} SameEnd(length: nat, offset: nat, limit: int)
    requires limit > 0 && offset < length
    ensures EndOffset(length, offset, limit) == EndOffset(length, offset + limit, limit)
  {
    var x, q := length - offset - 1, (length - offset - 1) / limit;
    assert (x + limit) / limit == q + 1 by {
      QuotientIs(x + limit, limit, q + 1);
    }
    assert (q + 1) * limit == q * limit + limit;
    if offset + limit >= length {
      QuotientIs(x, limit, 0);
    }
  }

  lemma {:induction false} QuotientIs(x: int, d: int, q: int)
    requires d > 0 && q * d <= x < q * d + d
    ensures x / d == q
  {
    var p := x / d;
    assert x == d * p + x % d;
    if p < q { Scaled(p + 1, q, d); }
    if p > q { Scaled(q + 1, p, d); }
  }

  lemma Scaled(a: int, b: int, d: int)
    requires a <= b && d > 0
    ensures a * d <= b * d
  {
  }

  /** Following `next` returns the rest of the listing, every entry once and in order, exactly when `stoi` accepts the
      limit and the offset of the empty page that ends it. */
  lemma {:induction false} FollowedCovers<T>(entries: seq<T>, offset: nat, limit: int)
    requires limit > 0
    ensures Followed(entries, offset, limit) ==
      if limit > INT_MAX || EndOffset(|entries|, offset, limit) > INT_MAX then None
      else Some(if offset >= |entries| then [] else entries[offset..])
    decreases if offset > |entries| then 0 else |entries| + 1 - offset
  {
    if offset < |entries| {
      var next := NextOffset(offset, limit);
      FollowedCovers(entries, next, limit);
      SameEnd(|entries|, offset, limit);
      var page := Page(entries, offset, limit);
      assert page + (if next >= |entries| then [] else entries[next..]) == entries[offset..];
    }
  }

  /** From the first page on, that is the whole listing. */
  lemma {:induction false} WholeListing<T>(entries: seq<T>, limit: int)
    requires limit > 0
    ensures Followed(entries, 0, limit) == Some(entries)
      <==> limit <= INT_MAX && EndOffset(|entries|, 0, limit) <= INT_MAX
    ensures |entries| + limit - 1 <= INT_MAX ==> EndOffset(|entries|, 0, limit) <= INT_MAX
  {
    FollowedCovers(entries, 0, limit);
    if |entries| > 0 { assert entries[0..] == entries; }
  }

  /** `prev` undoes `next`, and `next` undoes `prev` except where `prev` stops at the beginning. */
  lemma PrevUndoesNext(offset: nat, limit: nat)
    ensures offset <= limit ==> PrevOffset(offset, limit) == 0
    ensures PrevOffset(NextOffset(offset, limit), limit) == offset
    ensures NextOffset(PrevOffset(offset, limit), limit) == offset <==> offset >= limit
  {
  }
}
