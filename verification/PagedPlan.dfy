/** The paged key-value write plan, and the position cursor that successive batches advance. */
module PagedPlan {
  import opened Wrappers

  datatype PlanError = BadPageSize | EmptyBatch

  datatype Plan = Plan(writePageIDs: seq<int>, writeOffsets: seq<int>, pageTable: seq<int>, kvLength: int)

  /** Where an absolute position is stored. */
  datatype Slot = Slot(page: int, offset: int)

  ghost function SlotOf(position: nat, pageSize: int): Slot
    requires pageSize > 0
  {
    Slot(position / pageSize, position % pageSize)
  }

  ghost function SlotsOf(plan: Plan): seq<Slot>
    requires |plan.writePageIDs| == |plan.writeOffsets|
  {
    seq(|plan.writePageIDs|, k requires 0 <= k < |plan.writePageIDs| => Slot(plan.writePageIDs[k], plan.writeOffsets[k]))
  }

  /** The slots of a range of positions, in order. */
  ghost function SlotRange(from: nat, to: nat, pageSize: int): (r: seq<Slot>)
    requires from <= to && pageSize > 0
    ensures |r| == to - from
  {
    seq(to - from, k requires 0 <= k < to - from => SlotOf(from + k, pageSize))
  }

  const MAX_POSITION := 0x7fff_ffff

  /** The write plan of one batch: the slots of its positions, and the pages of everything so far. */
  method BuildPagedPlan(pageSize: int, start: nat, tokenCount: nat) returns (r: Result<Plan, PlanError>)
    requires start + tokenCount <= MAX_POSITION
    ensures r.Failure? <==> pageSize <= 0 || tokenCount == 0
    ensures r.Failure? ==> r.error == if pageSize <= 0 then BadPageSize else EmptyBatch
    ensures r.Success? ==> |r.value.writePageIDs| == |r.value.writeOffsets| == tokenCount
    ensures r.Success? ==> AddressesOf(r.value.writePageIDs, r.value.writeOffsets, start, pageSize)
    ensures r.Success? ==> SlotsOf(r.value) == SlotRange(start, start + tokenCount, pageSize)
    ensures r.Success? ==> r.value.kvLength == start + tokenCount
    ensures r.Success? ==> Covers(r.value.pageTable, r.value.kvLength, pageSize)
  {
    if pageSize <= 0 {
      return Failure(BadPageSize);
    }
    if tokenCount == 0 {
      return Failure(EmptyBatch);
    }
    hide AddressesOf, Covers;
    var pages: seq<int>, offsets: seq<int> := [], [];
    assert AddressesOf([], [], start, pageSize) by {
      NoAddresses(start, pageSize);
    }
    for k := 0 to tokenCount
      invariant |pages| == |offsets| == k
      invariant AddressesOf(pages, offsets, start, pageSize)
      invariant forall j | 0 <= j < k :: Slot(pages[j], offsets[j]) == SlotOf(start + j, pageSize)
    {
      AddressNext(pages, offsets, start, pageSize);
      pages := pages + [(start + k) / pageSize];
      offsets := offsets + [(start + k) % pageSize];
    }
    var finalPage := (start + tokenCount - 1) / pageSize;
    LaterPage(0, start + tokenCount - 1, pageSize);
    var table: seq<int> := [];
    for page := 0 to finalPage + 1
      invariant |table| == page && forall j | 0 <= j < page :: table[j] == j
    {
      table := table + [page];
    }
    var plan := Plan(pages, offsets, table, start + tokenCount);
    TableCovers(table, start + tokenCount, pageSize);
    return Success(plan);
  }

  /** Entry `k` of a batch is position `start + k`, counted in whole pages and slots within a page. */
  ghost predicate AddressesOf(pages: seq<int>, offsets: seq<int>, start: nat, pageSize: int) {
    && |pages| == |offsets|
    && forall k | 0 <= k < |pages| :: pages[k] * pageSize + offsets[k] == start + k && 0 <= offsets[k] < pageSize
  }

  lemma NoAddresses(start: nat, pageSize: int)
    ensures AddressesOf([], [], start, pageSize)
  {
  }

  lemma AddressNext(pages: seq<int>, offsets: seq<int>, start: nat, pageSize: int)
    requires pageSize > 0 && AddressesOf(pages, offsets, start, pageSize)
    ensures AddressesOf(pages + [(start + |pages|) / pageSize], offsets + [(start + |pages|) % pageSize], start, pageSize)
  {
    var position := start + |pages|;
    assert position / pageSize * pageSize + position % pageSize == position;
  }

  /** The table lists exactly the pages of the positions below the length, each once and in order. */
  ghost predicate Covers(table: seq<int>, length: int, pageSize: int)
    requires pageSize > 0
  {
    && (forall j | 0 <= j < |table| :: table[j] == j)
    && (forall position: nat | position < length :: SlotOf(position, pageSize).page < |table|)
    && (forall j | 0 <= j < |table| :: PageInUse(j, length, pageSize))
  }

  ghost predicate PageInUse(page: int, length: int, pageSize: int)
    requires pageSize > 0
  {
    exists position: nat :: position < length && SlotOf(position, pageSize).page == page
  }

  lemma LaterPage(a: nat, b: nat, pageSize: int)
    requires a <= b && pageSize > 0
    ensures 0 <= a / pageSize <= b / pageSize
  {
    var p, q := a / pageSize, b / pageSize;
    assert a == p * pageSize + a % pageSize && b == q * pageSize + b % pageSize;
    if p > q {
      AtLeast(p - q, pageSize);
    }
    if p < 0 {
      AtLeast(-p, pageSize);
    }
  }

  lemma AtLeast(n: int, size: int)
    requires n >= 1 && size > 0
    ensures n * size >= size
  {
  }

  lemma PageStart(j: nat, pageSize: int, length: nat)
    requires pageSize > 0 && length > 0 && j <= (length - 1) / pageSize
    ensures 0 <= j * pageSize < length && SlotOf(j * pageSize, pageSize).page == j
  {
    var last := length - 1;
    assert last == (last / pageSize) * pageSize + last % pageSize;
    if j < last / pageSize {
      AtLeast(last / pageSize - j, pageSize);
    }
    if j > 0 {
      AtLeast(j, pageSize);
    }
    SamePage(j * pageSize, j, 0, pageSize);
  }

  /** Quotient and remainder determine the position, and the other way round. */
  lemma SamePage(position: nat, page: int, offset: int, pageSize: int)
    requires pageSize > 0 && 0 <= offset < pageSize && position == page * pageSize + offset
    ensures position / pageSize == page && position % pageSize == offset
  {
    var q, r := position / pageSize, position % pageSize;
    assert position == q * pageSize + r;
    assert (page - q) * pageSize == r - offset;
    if page > q {
      AtLeast(page - q, pageSize);
    } else if page < q {
      AtLeast(q - page, pageSize);
    }
  }

  lemma TableCovers(table: seq<int>, length: nat, pageSize: int)
    requires pageSize > 0 && length > 0 && |table| == (length - 1) / pageSize + 1
    requires forall j | 0 <= j < |table| :: table[j] == j
    ensures Covers(table, length, pageSize)
  {
    forall position: nat | position < length
      ensures SlotOf(position, pageSize).page < |table|
    {
      LaterPage(position, length - 1, pageSize);
    }
    forall j | 0 <= j < |table|
      ensures PageInUse(j, length, pageSize)
    {
      PageStart(j, pageSize, length);
    }
  }

  // ----- runs of batches

  /** The cursor and the slots written so far. */
  class PagedCache {
    const pageSize: int
    var cursor: nat
    ghost var written: seq<Slot>

    constructor (pageSize: int)
      requires pageSize > 0
      ensures Valid() && this.pageSize == pageSize && cursor == 0
    {
      this.pageSize, cursor, written := pageSize, 0, [];
    }

    /** Everything below the cursor has been written, once and in order. */
    ghost predicate Valid()
      reads this
    {
      pageSize > 0 && cursor <= MAX_POSITION && written == SlotRange(0, cursor, pageSize)
    }

    /** Plans and writes one batch, then advances the cursor past it. */
    method RunBatch(tokenCount: nat) returns (r: Result<Plan, PlanError>)
      requires Valid() && cursor + tokenCount <= MAX_POSITION
      modifies `cursor, `written
      ensures Valid() && cursor == old(cursor) + tokenCount
      ensures r.Failure? <==> tokenCount == 0
      ensures r.Success? ==> Covers(r.value.pageTable, cursor, pageSize)
    {
      r := BuildPagedPlan(pageSize, cursor, tokenCount);
      if r.Failure? {
        return;
      }
      written := written + SlotsOf(r.value);
      cursor := cursor + tokenCount;
    }
  }

  /** No slot is written twice: the slots of different positions differ. */
  lemma SlotsDistinct(n: nat, pageSize: int, a: nat, b: nat)
    requires pageSize > 0 && a < b < n
    ensures SlotRange(0, n, pageSize)[a] != SlotRange(0, n, pageSize)[b]
  {
    assert a == (a / pageSize) * pageSize + a % pageSize;
    assert b == (b / pageSize) * pageSize + b % pageSize;
  }

  /** No slot is skipped: every slot of a full page below the cursor is written. */
  lemma SlotsComplete(n: nat, pageSize: int, slot: Slot) returns (position: nat)
    requires pageSize > 0 && slot.page >= 0 && 0 <= slot.offset < pageSize
    requires slot.page * pageSize + slot.offset < n
    ensures position < n && SlotRange(0, n, pageSize)[position] == slot
  {
    if slot.page > 0 {
      AtLeast(slot.page, pageSize);
    }
    position := slot.page * pageSize + slot.offset;
    SamePage(position, slot.page, slot.offset, pageSize);
  }
}
