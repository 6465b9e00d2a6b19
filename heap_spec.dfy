/** The page rules of HeapFile.java as functions: the file-length and
    offset arithmetic, the slots of a page, the first page with room, and
    the order in which a scan visits tuples.

    HeapPage.java is not part of this model. A page is its vector of slots;
    inserting fills the lowest empty slot and stamps the tuple with its
    record id, deleting clears the slot the record id names. */
module HeapSpec {
  import opened Common

  /** A heap page: its page number, its slots and whether it is dirty. */
  datatype Page = Page(id: nat, slots: seq<Option<Tuple>>, dirty: bool)

  /** The page iterator: the tuples of a page and the position of the next. */
  datatype Cursor = Cursor(rows: seq<Tuple>, pos: nat)

  /** The position of an iterator lies within its tuples. */
  predicate Live(c: Option<Cursor>)
  {
    c.Some? ==> c.value.pos <= |c.value.rows|
  }

  /** The tuples an iterator has still to hand out; none without one. */
  function Left(c: Option<Cursor>): seq<Tuple>
    requires Live(c)
  {
    if c == None then [] else c.value.rows[c.value.pos..]
  }

  /** `numPages`: whole pages in a file of `length` bytes. */
  function PageCount(length: nat, pageSize: nat): nat
    requires pageSize > 0
  {
    length / pageSize
  }

  /** The page count is the number of whole pages: `n` pages fit in the
      file and `n + 1` do not. */
  lemma PageCountMeans(length: nat, pageSize: nat)
    requires pageSize > 0
    ensures var n := PageCount(length, pageSize);
      n * pageSize <= length < n * pageSize + pageSize
  {
  }

  /** Page `n` starts at byte `n * pageSize`. */
  function Offset(n: nat, pageSize: nat): nat
  {
    n * pageSize
  }

  /** The file length after writing one page at `Offset(n)`. */
  function LengthAfterWrite(length: nat, n: nat, pageSize: nat): nat
  {
    if Offset(n, pageSize) + pageSize > length then Offset(n, pageSize) + pageSize else length
  }

  /** Writing the page numbered `numPages()` adds exactly one page, also
      over a partial last page. */
  lemma AppendAddsOnePage(length: nat, pageSize: nat)
    requires pageSize > 0
    ensures var n := PageCount(length, pageSize);
      PageCount(LengthAfterWrite(length, n, pageSize), pageSize) == n + 1
  {
    var n := PageCount(length, pageSize);
    var after := LengthAfterWrite(length, n, pageSize);
    assert after == (n + 1) * pageSize;
    DivUnique(after, pageSize, n + 1);
  }

  /** A freshly created page: every slot empty (`createEmptyPageData`). */
  function Blank(n: nat, slotsPerPage: nat): (p: Page)
    ensures p.id == n && |p.slots| == slotsPerPage && !p.dirty
    ensures forall i :: 0 <= i < slotsPerPage ==> p.slots[i] == None
  {
    Page(n, seq(slotsPerPage, _ => None), false)
  }

  /** `readPage`: the bytes at `Offset(n)` of a file of `length` bytes whose
      written pages hold `pages`. Past the end the read returns nothing; a
      page inside the file that was never written reads as all zeros, that
      is, with every slot empty. A page read from disk is clean. */
  function ReadFrom(pages: map<nat, seq<Option<Tuple>>>, length: nat, pageSize: nat, slotsPerPage: nat, n: nat): (r: Option<Page>)
    ensures r.Some? <==> Offset(n, pageSize) < length
    ensures r.Some? ==> r.value.id == n && !r.value.dirty
    ensures r.Some? && n in pages ==> r.value.slots == pages[n]
  {
    if Offset(n, pageSize) >= length then None
    else if n in pages then Some(Page(n, pages[n], false))
    else Some(Blank(n, slotsPerPage))
  }

  /** The pages that can be read are those below `numPages()`, and the
      partial page after them when the length is not a whole number of
      pages. */
  lemma Readable(pages: map<nat, seq<Option<Tuple>>>, length: nat, pageSize: nat, slotsPerPage: nat, n: nat)
    requires pageSize > 0
    ensures var count := PageCount(length, pageSize);
      ReadFrom(pages, length, pageSize, slotsPerPage, n).Some? <==>
        n < count || (n == count && length % pageSize != 0)
  {
    var count := PageCount(length, pageSize);
    assert length == count * pageSize + length % pageSize;
    if n < count {
      MulMono(n + 1, count, pageSize);
      assert (n + 1) * pageSize == n * pageSize + pageSize;
    } else if n > count {
      MulMono(count + 1, n, pageSize);
      assert (count + 1) * pageSize == count * pageSize + pageSize;
    }
  }

  /** Reading a page back after writing it gives the written slots, and
      every page that could be read before reads the same unless it is the
      one written. */
  lemma ReadAfterWrite(pages: map<nat, seq<Option<Tuple>>>, length: nat, pageSize: nat, slotsPerPage: nat, p: Page, m: nat)
    requires pageSize > 0
    ensures ReadFrom(pages[p.id := p.slots], LengthAfterWrite(length, p.id, pageSize), pageSize, slotsPerPage, p.id)
      == Some(p.(dirty := false))
    ensures m != p.id && ReadFrom(pages, length, pageSize, slotsPerPage, m).Some? ==>
      ReadFrom(pages[p.id := p.slots], LengthAfterWrite(length, p.id, pageSize), pageSize, slotsPerPage, m)
        == ReadFrom(pages, length, pageSize, slotsPerPage, m)
  {
  }

  /** Page `i` is returned by the buffer pool and has an empty slot. */
  function Fits(fetch: nat -> Option<Page>): nat -> bool
  {
    (i: nat) => fetch(i).Some? && HasRoom(fetch(i).value)
  }

  /** The lowest `i` in `lo` up to `hi` satisfying `ok`. */
  function First(ok: nat -> bool, lo: nat, hi: nat): Option<nat>
    decreases hi - lo
  {
    if lo >= hi then None else if ok(lo) then Some(lo) else First(ok, lo + 1, hi)
  }

  /** `First` finds the lowest satisfying index, or reports that there is
      none in range. */
  lemma {:induction false} FirstMeans(ok: nat -> bool, lo: nat, hi: nat)
    ensures match First(ok, lo, hi)
      case Some(i) => lo <= i < hi && ok(i) && forall j :: lo <= j < i ==> !ok(j)
      case None => forall j :: lo <= j < hi ==> !ok(j)
    decreases hi - lo
  {
    if lo < hi && !ok(lo) {
      FirstMeans(ok, lo + 1, hi);
    }
  }

  /** `getNumEmptySlots() != 0`. */
  predicate HasRoom(p: Page)
  {
    exists i :: 0 <= i < |p.slots| && p.slots[i] == None
  }

  /** The page after inserting `t` into its lowest empty slot, with the
      tuple stamped with that slot's record id. */
  function Insert(p: Page, t: Tuple): (r: Page)
    requires HasRoom(p)
    ensures r.id == p.id && r.dirty == p.dirty && |r.slots| == |p.slots|
    ensures exists s :: (0 <= s < |p.slots| && p.slots[s] == None
      && (forall j :: 0 <= j < s ==> p.slots[j].Some?)
      && r.slots == p.slots[s := Some(t.(rid := Some(RecordId(p.id, s))))])
  {
    var ok := (i: nat) => i < |p.slots| && p.slots[i] == None;
    FirstMeans(ok, 0, |p.slots|);
    var s: nat :| s < |p.slots| && p.slots[s] == None;
    assert ok(s);
    var k := First(ok, 0, |p.slots|).value;
    assert k < |p.slots| && p.slots[k] == None && forall j :: 0 <= j < k ==> p.slots[j].Some? by {
      assert ok(k);
      forall j | 0 <= j < k ensures p.slots[j].Some? {
        assert !ok(j);
      }
    }
    p.(slots := p.slots[k := Some(t.(rid := Some(RecordId(p.id, k))))])
  }

  /** The page after clearing the slot `t`'s record id names, or
      DbException when that slot is not on this page or already empty. */
  function Delete(p: Page, t: Tuple): (r: Result<Page>)
    requires t.rid.Some?
    ensures r.Ok? <==> t.rid.value.pageNo == p.id && t.rid.value.slot < |p.slots| && p.slots[t.rid.value.slot].Some?
    ensures r.Ok? ==> r.value == p.(slots := p.slots[t.rid.value.slot := None])
    ensures r.Fail? ==> r.failure == Db
  {
    var rid := t.rid.value;
    if rid.pageNo == p.id && rid.slot < |p.slots| && p.slots[rid.slot].Some? then
      Ok(p.(slots := p.slots[rid.slot := None]))
    else
      Fail(Db)
  }

  /** Deleting the tuple an insertion stamped gives back the page's slots
      as they were. */
  lemma DeleteUndoesInsert(p: Page, t: Tuple)
    requires HasRoom(p)
    ensures var q := Insert(p, t);
      exists s :: (0 <= s < |q.slots| && q.slots[s].Some? && q.slots[s].value.rid.Some?
        && q.slots[s].value.rid.value.slot == s
        && Delete(q, q.slots[s].value) == Ok(p))
  {
    var q := Insert(p, t);
    var s :| 0 <= s < |p.slots| && p.slots[s] == None
      && (forall j :: 0 <= j < s ==> p.slots[j].Some?)
      && q.slots == p.slots[s := Some(t.(rid := Some(RecordId(p.id, s))))];
    assert q.slots[s := None] == p.slots;
    assert q.slots[s].value.rid.value.slot == s;
  }

  /** The tuples in the occupied slots, in slot order: what the page's
      iterator hands out. */
  function Tuples(slots: seq<Option<Tuple>>): seq<Tuple>
  {
    TuplesFrom(slots, 0)
  }

  /** The tuples in the occupied slots from slot `i` on. */
  function TuplesFrom(slots: seq<Option<Tuple>>, i: nat): seq<Tuple>
    decreases |slots| - i
  {
    if i >= |slots| then []
    else (if slots[i].Some? then [slots[i].value] else []) + TuplesFrom(slots, i + 1)
  }

  /** A page has a tuple exactly when one of its slots is occupied. */
  lemma {:induction false} TuplesEmpty(slots: seq<Option<Tuple>>, i: nat)
    ensures TuplesFrom(slots, i) == [] <==> forall j :: i <= j < |slots| ==> slots[j] == None
    decreases |slots| - i
  {
    if i < |slots| {
      TuplesEmpty(slots, i + 1);
    }
  }

  /** The tuples of page `i` as the buffer pool returns it; a page the pool
      does not return has none. */
  function TuplesAt(fetch: nat -> Option<Page>, i: nat): seq<Tuple>
  {
    if fetch(i) == None then [] else Tuples(fetch(i).value.slots)
  }

  /** All tuples of pages `lo` up to `hi`, page after page, each page in
      slot order. */
  function Scan(fetch: nat -> Option<Page>, lo: nat, hi: nat): seq<Tuple>
    decreases hi - lo
  {
    if lo >= hi then [] else TuplesAt(fetch, lo) + Scan(fetch, lo + 1, hi)
  }

  /** Pages without tuples add nothing to a scan: when the pages from
      `lo` up to `mid` hold no tuple, the scan from `lo` is the scan from
      `mid`. */
  lemma {:induction false} ScanOverEmpty(fetch: nat -> Option<Page>, lo: nat, mid: nat, hi: nat)
    requires lo <= mid
    requires forall j :: lo <= j < mid && j < hi ==> TuplesAt(fetch, j) == []
    ensures Scan(fetch, lo, hi) == Scan(fetch, mid, hi)
    decreases mid - lo
  {
    if lo < mid && lo < hi {
      ScanOverEmpty(fetch, lo + 1, mid, hi);
    }
  }

  /** The buffer pool returns, for page number `i`, the page numbered `i`. */
  ghost predicate Coherent(fetch: nat -> Option<Page>)
  {
    forall i :: fetch(i).Some? ==> fetch(i).value.id == i
  }
}
