/** HeapFile.java: a table stored as a file of fixed-size pages, with
    first-fit insertion, deletion through the buffer pool, and an iterator
    that reads the table page after page.

    The buffer pool is the parameter `fetch`: for a page number it returns
    the page it holds, or nothing where `getPage` returns null. */
module HeapStorage {
  import opened Common
  import opened HeapSpec

  class HeapFile {
    const td: TupleDesc
    /** `BufferPool.getPageSize()`. */
    const pageSize: nat
    /** The slots of a page, fixed by the page size and the schema. */
    const slotsPerPage: nat
    /** The length of the file in bytes. */
    var length: nat
    /** The slots of every page written to the file, by page number. */
    var pages: map<nat, seq<Option<Tuple>>>

    ghost predicate Valid()
      reads this
    {
      && pageSize > 0
      && forall n :: n in pages ==> Offset(n, pageSize) < length
    }

    /** Opens the file as it is on disk. */
    constructor (td: TupleDesc, pageSize: nat, slotsPerPage: nat, length: nat, pages: map<nat, seq<Option<Tuple>>>)
      requires pageSize > 0
      requires forall n :: n in pages ==> Offset(n, pageSize) < length
      ensures Valid() && this.td == td && this.pageSize == pageSize && this.slotsPerPage == slotsPerPage
      ensures this.length == length && this.pages == pages
    {
      this.td := td;
      this.pageSize := pageSize;
      this.slotsPerPage := slotsPerPage;
      this.length := length;
      this.pages := pages;
    }

    /** The number of whole pages in the file. */
    function NumPages(): (n: nat)
      requires Valid()
      reads this
      ensures n == PageCount(length, pageSize)
    {
      PageCount(length, pageSize)
    }

    /** Reads page `n` from its offset; nothing past the end of the file. */
    function ReadPage(n: nat): (r: Option<Page>)
      requires Valid()
      reads this
      ensures r == ReadFrom(pages, length, pageSize, slotsPerPage, n)
    {
      ReadFrom(pages, length, pageSize, slotsPerPage, n)
    }

    /** Writes the page at its offset, extending the file when the page
        lies at or past its end. */
    method WritePage(page: Page)
      requires Valid()
      modifies this
      ensures Valid()
      ensures pages == old(pages)[page.id := page.slots]
      ensures length == LengthAfterWrite(old(length), page.id, pageSize)
      ensures ReadPage(page.id) == Some(page.(dirty := false))
    {
      var offset := page.id * pageSize;
      if offset + pageSize > length {
        length := offset + pageSize;
      }
      pages := pages[page.id := page.slots];
      ReadAfterWrite(old(pages), old(length), pageSize, slotsPerPage, page, page.id);
    }

    /** Puts `t` into the first page with an empty slot, marking that page
        dirty; when no page has room, writes a new page holding `t` at the
        end of the file. `writable` stands for the file being readable and
        writable. */
    method InsertTuple(fetch: nat -> Option<Page>, writable: bool, t: Tuple) returns (r: Result<seq<Page>>)
      requires Valid()
      modifies this
      ensures Valid()
      ensures !writable ==> r == Fail(Db) && unchanged(this)
      ensures writable && First(Fits(fetch), 0, old(NumPages())).Some? ==>
        var i := First(Fits(fetch), 0, old(NumPages())).value;
        && fetch(i).Some? && HasRoom(fetch(i).value)
        && r == Ok([Insert(fetch(i).value, t).(dirty := true)])
        && unchanged(this)
      ensures writable && First(Fits(fetch), 0, old(NumPages())) == None ==>
        var blank := Blank(old(NumPages()), slotsPerPage);
        && (!HasRoom(blank) ==> r == Fail(Db) && unchanged(this))
        && (HasRoom(blank) ==>
              && r == Ok([Insert(blank, t)])
              && pages == old(pages)[blank.id := Insert(blank, t).slots]
              && NumPages() == old(NumPages()) + 1)
    {
      if !writable {
        return Fail(Db);
      }
      var i := 0;
      while i < NumPages()
        invariant 0 <= i <= NumPages()
        invariant First(Fits(fetch), 0, NumPages()) == First(Fits(fetch), i, NumPages())
      {
        var page := fetch(i);
        if page == None || !HasRoom(page.value) {
          i := i + 1;
          continue;
        }
        assert Fits(fetch)(i);
        var inserted := Insert(page.value, t);
        return Ok([inserted.(dirty := true)]);
      }
      var blank := Blank(NumPages(), slotsPerPage);
      if !HasRoom(blank) {
        return Fail(Db);
      }
      var inserted := Insert(blank, t);
      WritePage(inserted);
      AppendAddsOnePage(old(length), pageSize);
      return Ok([inserted]);
    }

    /** Clears the tuple's slot on the page its record id names. A tuple
        without a record id raises NullPointerException; a page the pool
        does not return, or a slot that is not occupied, raises
        DbException. */
    function DeleteTuple(fetch: nat -> Option<Page>, t: Tuple): (r: Result<seq<Page>>)
      requires Coherent(fetch)
      ensures t.rid == None ==> r == Fail(NullPointer)
      ensures t.rid != None ==>
        var n := t.rid.value.pageNo;
        var s := t.rid.value.slot;
        && (r.Ok? <==> fetch(n).Some? && s < |fetch(n).value.slots| && fetch(n).value.slots[s].Some?)
        && (r.Ok? ==> r.value == [fetch(n).value.(slots := fetch(n).value.slots[s := None])])
        && (r.Fail? ==> r.failure == Db)
    {
      if t.rid == None then Fail(NullPointer)
      else
        var page := fetch(t.rid.value.pageNo);
        if page == None then Fail(Db)
        else
          match Delete(page.value, t)
          case Ok(p) => Ok([p])
          case Fail(f) => Fail(f)
    }

    /** A new iterator over this file, reading through the pool `fetch`. */
    method Iterator(fetch: nat -> Option<Page>) returns (it: HeapFileIterator)
      requires Valid()
      ensures fresh(it) && it.Valid() && it.file == this && it.fetch == fetch
      ensures it.num == 0 && it.pageIterator == None
    {
      it := new HeapFileIterator(this, fetch);
    }
  }

  /** Walks the file a page at a time, handing out each page's tuples in
      slot order and skipping pages that are missing or empty. */
  class HeapFileIterator {
    const file: HeapFile
    const fetch: nat -> Option<Page>
    /** The number of the page being read. */
    var num: nat
    /** The current page's iterator; `None` before `open` and after `close`. */
    var pageIterator: Option<Cursor>

    ghost predicate Valid()
      reads this, file
    {
      file.Valid() && Live(pageIterator)
    }

    /** The tuples the iterator has still to hand out: the rest of the
        current page, then every later page of the file. */
    ghost function Remaining(): seq<Tuple>
      requires Valid()
      reads this, file
    {
      if pageIterator == None then [] else Left(pageIterator) + Scan(fetch, num + 1, file.NumPages())
    }

    constructor (file: HeapFile, fetch: nat -> Option<Page>)
      requires file.Valid()
      ensures Valid() && this.file == file && this.fetch == fetch
      ensures num == 0 && pageIterator == None
    {
      this.file := file;
      this.fetch := fetch;
      num := 0;
      pageIterator := None;
    }

    /** Starts at page 0; raises DbException when the pool does not return
        it. A successful open leaves the whole file, in page and slot
        order, to be handed out. */
    method Open() returns (err: Option<Failure>)
      requires Valid()
      modifies this
      ensures Valid() && num == 0
      ensures fetch(0) == None ==> err == Some(Db) && pageIterator == old(pageIterator)
      ensures fetch(0) != None ==> err == None && pageIterator == Some(Cursor(TuplesAt(fetch, 0), 0))
      ensures err == None && file.NumPages() >= 1 ==> Remaining() == Scan(fetch, 0, file.NumPages())
    {
      num := 0;
      var page := fetch(num);
      if page == None {
        return Some(Db);
      }
      pageIterator := Some(Cursor(Tuples(page.value.slots), 0));
      assert Left(pageIterator) == TuplesAt(fetch, 0);
      return None;
    }

    /** Moves to the next page that the pool returns and that holds a
        tuple. Pages the pool does not return are skipped; an empty page
        becomes the current one but the search goes on. Every page passed
        over holds no tuple. */
    method NextPage() returns (found: bool)
      requires Valid()
      modifies this
      ensures Valid()
      ensures found ==> && old(num) < num < file.NumPages()
                        && pageIterator == Some(Cursor(TuplesAt(fetch, num), 0))
                        && Left(pageIterator) != []
      ensures !found ==> && num >= file.NumPages()
                         && (pageIterator == old(pageIterator) || Left(pageIterator) == [])
      ensures forall j :: old(num) < j < num && j < file.NumPages() ==> TuplesAt(fetch, j) == []
    {
      ghost var n := file.NumPages();
      while true
        invariant Valid() && n == file.NumPages() && old(num) <= num
        invariant num == old(num) || num < n
        invariant forall j :: old(num) < j <= num ==> TuplesAt(fetch, j) == []
        invariant pageIterator == old(pageIterator) || Left(pageIterator) == []
        decreases n - num
      {
        num := num + 1;
        if num >= file.NumPages() {
          return false;
        }
        var page := fetch(num);
        if page == None {
          continue;
        }
        pageIterator := Some(Cursor(Tuples(page.value.slots), 0));
        if |pageIterator.value.rows| > 0 {
          return true;
        }
      }
    }

    /** Whether a tuple remains, moving on to the next page with tuples
        when the current one is used up. What remains is unchanged, and a
        true answer leaves the next tuple in the current page. */
    method HasNext() returns (b: bool)
      requires Valid()
      modifies this
      ensures Valid() && Remaining() == old(Remaining())
      ensures b <==> Remaining() != []
      ensures b ==> Left(pageIterator) != []
    {
      if pageIterator == None {
        return false;
      }
      if pageIterator.value.pos < |pageIterator.value.rows| {
        return true;
      }
      ghost var from := num + 1;
      ghost var n := file.NumPages();
      b := NextPage();
      if b {
        ScanOverEmpty(fetch, from, num, n);
        assert Left(pageIterator) == TuplesAt(fetch, num);
      } else if from <= n {
        ScanOverEmpty(fetch, from, n, n);
      }
    }

    /** The next tuple of the current page. Without an pageIterator, or past
        the current page's last tuple, raises NoSuchElementException. */
    method Next() returns (r: Result<Tuple>)
      requires Valid()
      modifies this
      ensures Valid() && num == old(num)
      ensures old(Left(pageIterator)) == [] ==> r == Fail(NoSuchElement) && pageIterator == old(pageIterator)
      ensures old(Left(pageIterator)) != [] ==>
        && r == Ok(old(Remaining())[0])
        && Left(pageIterator) == old(Left(pageIterator))[1..]
        && Remaining() == old(Remaining())[1..]
    {
      if pageIterator == None {
        return Fail(NoSuchElement);
      }
      var c := pageIterator.value;
      if c.pos == |c.rows| {
        return Fail(NoSuchElement);
      }
      ghost var rest := Scan(fetch, num + 1, file.NumPages());
      assert Remaining() == c.rows[c.pos..] + rest;
      DropFirst(c.rows, c.pos, rest);
      pageIterator := Some(Cursor(c.rows, c.pos + 1));
      r := Ok(c.rows[c.pos]);
      assert Remaining() == c.rows[c.pos + 1..] + rest;
    }

    /** Handing out the next tuple of the current page drops the first
        tuple of what remains. */
    static lemma DropFirst(rows: seq<Tuple>, pos: nat, rest: seq<Tuple>)
      requires pos < |rows|
      ensures rows[pos + 1..] == rows[pos..][1..]
      ensures rows[pos + 1..] + rest == (rows[pos..] + rest)[1..]
      ensures (rows[pos..] + rest)[0] == rows[pos]
    {
    }

    /** Starts over by opening again. */
    method Rewind() returns (err: Option<Failure>)
      requires Valid()
      modifies this
      ensures Valid() && num == 0
      ensures fetch(0) == None ==> err == Some(Db) && pageIterator == old(pageIterator)
      ensures fetch(0) != None ==> err == None && pageIterator == Some(Cursor(TuplesAt(fetch, 0), 0))
      ensures err == None && file.NumPages() >= 1 ==> Remaining() == Scan(fetch, 0, file.NumPages())
    {
      err := Open();
    }

    /** Drops the page pageIterator: nothing remains. */
    method Close()
      requires Valid()
      modifies this
      ensures Valid() && pageIterator == None && Remaining() == []
    {
      pageIterator := None;
    }
  }
}
