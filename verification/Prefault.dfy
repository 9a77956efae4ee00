/** Touching every page of a requested range exactly once. */
module Prefault {
  import opened Machine

  datatype AccessError = OutOfBounds | InvalidRange

  /** The last page's end must be representable for the loop to see that it is done. */
  predicate Representable(pageSize: nat, end: nat)
    requires pageSize > 0 && end > 0
  {
    ((end - 1) / pageSize + 1) * pageSize <= U64_MAX
  }

  function Touch(pageSize: nat, start: nat, k: nat): nat
    requires pageSize > 0
  {
    if k == 0 then start else (start / pageSize + k) * pageSize
  }

  lemma PageOf(pageSize: nat, page: nat, rest: nat)
    requires pageSize > 0 && rest < pageSize
    ensures (page * pageSize + rest) / pageSize == page
  {
    var x := page * pageSize + rest;
    TimesLess(x / pageSize, page, pageSize);
    TimesLess(page, x / pageSize, pageSize);
    assert x == x / pageSize * pageSize + x % pageSize;
  }

  lemma TouchPage(pageSize: nat, start: nat, k: nat)
    requires pageSize > 0
    ensures Touch(pageSize, start, k) / pageSize == start / pageSize + k
  {
    if k > 0 {
      PageOf(pageSize, start / pageSize + k, 0);
    }
  }

  /** The next page starts inside the range exactly when the range's last byte lies past this page. */
  lemma NextPage(pageSize: nat, page: nat, end: nat)
    requires pageSize > 0 && end > 0
    ensures (page + 1) * pageSize < end <==> page < (end - 1) / pageSize
  {
    var last := (end - 1) / pageSize;
    assert end - 1 == last * pageSize + (end - 1) % pageSize;
    if page < last {
      assert (page + 1) * pageSize <= last * pageSize;
    } else {
      assert (last + 1) * pageSize <= (page + 1) * pageSize;
      assert last * pageSize + pageSize <= (page + 1) * pageSize;
    }
  }

  /** Succeeds exactly on valid ranges whose page ends are representable, and
      then touches one byte of the range in each of its pages, in order. */
  method PrefaultRead(pageSize: nat, logicalLen: u64, start: u64, end: u64)
    returns (r: Result<(nat, nat), AccessError>, touched: seq<nat>)
    requires pageSize > 0
    ensures start > end ==> r == Err(InvalidRange)
    ensures start <= end && r.Err? ==> r == Err(OutOfBounds)
    ensures r.Ok? <==> start <= end <= logicalLen && (start < end ==> Representable(pageSize, end))
    ensures r.Ok? ==> r.value == (end - start, |touched|)
    ensures r.Ok? && start < end ==> |touched| == (end - 1) / pageSize - start / pageSize + 1
    ensures AllTouched(pageSize, start, end, touched)
  {
    touched := [];
    if start > end {
      return Err(InvalidRange), touched;
    }
    if end > logicalLen {
      return Err(OutOfBounds), touched;
    }
    if start == end {
      return Ok((0, 0)), touched;
    }
    var offset: nat := start;
    FirstPage(pageSize, start, end);
    while true
      invariant offset == Touch(pageSize, start, |touched|)
      invariant AllTouched(pageSize, start, end, touched + [offset])
      decreases end - offset
    {
      touched := touched + [offset];
      var next := (offset / pageSize + 1) * pageSize;
      PageEnds(pageSize, start, end, touched);
      if next > U64_MAX {
        return Err(OutOfBounds), touched;
      }
      if next >= end {
        return Ok((end - start, |touched|)), touched;
      }
      NextTouch(pageSize, start, end, touched);
      offset := next;
    }
  }

  /** The touches so far: one per page, in order, inside the range. */
  ghost predicate AllTouched(pageSize: nat, start: nat, end: nat, touched: seq<nat>)
    requires pageSize > 0
  {
    forall k :: 0 <= k < |touched| ==>
      && touched[k] == Touch(pageSize, start, k) && start <= touched[k] < end
      && touched[k] / pageSize == start / pageSize + k
  }

  lemma FirstPage(pageSize: nat, start: nat, end: nat)
    requires pageSize > 0 && start < end
    ensures AllTouched(pageSize, start, end, [] + [start])
  {
  }

  lemma NextTouch(pageSize: nat, start: nat, end: nat, touched: seq<nat>)
    requires pageSize > 0 && touched != [] && AllTouched(pageSize, start, end, touched)
    requires var next := (touched[|touched| - 1] / pageSize + 1) * pageSize; next < end
    ensures var next := (touched[|touched| - 1] / pageSize + 1) * pageSize;
            && next == Touch(pageSize, start, |touched|) && touched[|touched| - 1] < next
            && AllTouched(pageSize, start, end, touched + [next])
  {
    NextIsPast(pageSize, touched[|touched| - 1]);
    TouchPage(pageSize, start, |touched|);
  }

  /** After the last touch: the range is covered exactly when the next page
      starts past it, and then that start is the representable page end. */
  lemma PageEnds(pageSize: nat, start: nat, end: nat, touched: seq<nat>)
    requires pageSize > 0 && touched != [] && AllTouched(pageSize, start, end, touched)
    ensures var next := (touched[|touched| - 1] / pageSize + 1) * pageSize;
            && (next > U64_MAX ==> !Representable(pageSize, end))
            && (end <= next <= U64_MAX ==>
                  Representable(pageSize, end) && |touched| == (end - 1) / pageSize - start / pageSize + 1)
  {
    var at := touched[|touched| - 1];
    var page := at / pageSize;
    NextPage(pageSize, page, end);
    SamePageOrder(pageSize, at, end - 1);
    if (page + 1) * pageSize > U64_MAX {
      LastPageOverflows(pageSize, page, end);
    }
  }

  lemma SamePageOrder(pageSize: nat, a: nat, b: nat)
    requires pageSize > 0 && a <= b
    ensures a / pageSize <= b / pageSize
  {
    TimesLess(b / pageSize, a / pageSize, pageSize);
    assert a == a / pageSize * pageSize + a % pageSize;
    assert b == b / pageSize * pageSize + b % pageSize;
  }

  lemma NextIsPast(pageSize: nat, offset: nat)
    requires pageSize > 0
    ensures (offset / pageSize + 1) * pageSize > offset
  {
    assert offset == (offset / pageSize) * pageSize + offset % pageSize;
    assert (offset / pageSize + 1) * pageSize == (offset / pageSize) * pageSize + pageSize;
  }

  lemma LastPageOverflows(pageSize: nat, page: nat, end: nat)
    requires pageSize > 0 && end > 0 && page <= (end - 1) / pageSize && (page + 1) * pageSize > U64_MAX
    ensures !Representable(pageSize, end)
  {
    assert (page + 1) * pageSize <= ((end - 1) / pageSize + 1) * pageSize;
  }
}
