/**
Bounded pages of JSON Lines, and filling one after another until the rows run out.
*/
module Pages {
  import opened Bytes

  const MAX_PAGE_BYTES: nat := 64 * 1024 * 1024
  const BRACE: byte := 123

  datatype Limits = Limits(maxBytes: nat, maxRows: nat)

  /** Limits as `PageLimits::new` leaves them. */
  predicate Usable(l: Limits) { 1 <= l.maxBytes <= MAX_PAGE_BYTES && 1 <= l.maxRows }

  function NewLimits(bytes: nat, rows: nat): (l: Limits)
    ensures Usable(l)
    ensures 1 <= bytes <= MAX_PAGE_BYTES ==> l.maxBytes == bytes
    ensures bytes == 0 ==> l.maxBytes == 1
    ensures bytes > MAX_PAGE_BYTES ==> l.maxBytes == 67108864
    ensures rows >= 1 ==> l.maxRows == rows
    ensures rows == 0 ==> l.maxRows == 1
  {
    Limits(if bytes < 1 then 1 else if bytes > MAX_PAGE_BYTES then MAX_PAGE_BYTES else bytes,
           if rows < 1 then 1 else rows)
  }

  /** A row as the serialiser leaves it. */
  datatype Row = Text(data: seq<byte>) | Unserialisable(partial: seq<byte>)

  datatype Pushed = Added | Full | NotAnObject | InvalidData

  predicate ObjectRow(r: Row) { r.Text? && r.data != [] && r.data[0] == BRACE }

  /** Bytes a row takes with its newline. */
  function Size(r: Row): nat
    requires r.Text?
  {
    |r.data| + 1
  }

  /** What `push` answers, by how full the page is. */
  function Verdict(l: Limits, rows: nat, bytes: nat, r: Row): Pushed {
    if rows >= l.maxRows then Full
    else if r.Unserialisable? then InvalidData
    else if !ObjectRow(r) then NotAnObject
    else if rows == 0 then (if Size(r) > MAX_PAGE_BYTES then InvalidData else Added)
    else if bytes + Size(r) > l.maxBytes then Full
    else Added
  }

  /** When `push` gives each of its answers. */
  lemma {:induction false} PushExactly(l: Limits, rows: nat, bytes: nat, r: Row)
    ensures var v := Verdict(l, rows, bytes, r);
            var braced := r.Text? && r.data != [] && r.data[0] == '{' as int;
            && (v == NotAnObject <==> rows < l.maxRows && r.Text? && !braced)
            && (v == InvalidData <==>
                  rows < l.maxRows && (r.Unserialisable? || (braced && rows == 0 && |r.data| + 1 > 67108864)))
            && (v == Full <==> rows >= l.maxRows || (braced && rows > 0 && bytes + |r.data| + 1 > l.maxBytes))
  {
  }

  class Page {
    var buf: seq<byte>
    var rows: nat
    const limits: Limits

    constructor (limits: Limits)
      ensures this.limits == limits && buf == [] && rows == 0
    {
      this.limits := limits;
      buf, rows := [], 0;
    }

    /** A row that is not added leaves the page as it was. */
    method Push(row: Row) returns (r: Pushed)
      modifies this
      ensures r == Verdict(limits, old(rows), |old(buf)|, row)
      ensures buf == if r == Added then old(buf) + row.data + [LF] else old(buf)
      ensures rows == old(rows) + if r == Added then 1 else 0
    {
      if rows >= limits.maxRows {
        return Full;
      }
      var start := |buf|;
      if row.Unserialisable? {
        buf := buf + row.partial;
        buf := buf[..start];
        return InvalidData;
      }
      buf := buf + row.data;
      if start == |buf| || buf[start] != BRACE {
        buf := buf[..start];
        return NotAnObject;
      }
      buf := buf + [LF];
      var rowLen := |buf| - start;
      if rows == 0 {
        if rowLen > MAX_PAGE_BYTES {
          buf := buf[..start];
          return InvalidData;
        }
      } else if |buf| > limits.maxBytes {
        buf := buf[..start];
        return Full;
      }
      rows := rows + 1;
      return Added;
    }
  }

  // ---- one page ----

  ghost predicate AllObjects(rs: seq<Row>) {
    forall i :: 0 <= i < |rs| ==> ObjectRow(rs[i]) && Size(rs[i]) <= MAX_PAGE_BYTES
  }

  function Lines(rs: seq<Row>): seq<byte>
    requires forall i :: 0 <= i < |rs| ==> rs[i].Text?
  {
    if rs == [] then [] else Lines(rs[..|rs| - 1]) + rs[|rs| - 1].data + [LF]
  }

  /** How many of `rs` are in the page when pushing stops, `n` being in it already. */
  function Taken(l: Limits, rs: seq<Row>, n: nat): (r: nat)
    requires AllObjects(rs) && n <= |rs|
    ensures n <= r <= |rs|
    decreases |rs| - n
  {
    if n == |rs| || Verdict(l, n, |Lines(rs[..n])|, rs[n]) != Added then n else Taken(l, rs, n + 1)
  }

  lemma {:induction false} TakenStops(l: Limits, rs: seq<Row>, n: nat)
    requires AllObjects(rs) && n <= |rs|
    ensures var k := Taken(l, rs, n);
            k < |rs| ==> Verdict(l, k, |Lines(rs[..k])|, rs[k]) == Full
    decreases |rs| - n
  {
    hide Lines;
    if n < |rs| && Verdict(l, n, |Lines(rs[..n])|, rs[n]) == Added {
      TakenStops(l, rs, n + 1);
    }
  }

  /** A page within its limits: rows, and bytes unless a single row is bigger. */
  ghost predicate WithinLimits(l: Limits, rs: seq<Row>)
    requires AllObjects(rs)
  {
    && |rs| <= l.maxRows && |Lines(rs)| <= MAX_PAGE_BYTES
    && (rs != [] ==> |Lines(rs)| <= (if Size(rs[0]) > l.maxBytes then Size(rs[0]) else l.maxBytes))
  }

  lemma {:induction false} TakenWithin(l: Limits, rs: seq<Row>, n: nat)
    requires Usable(l) && AllObjects(rs) && n <= |rs| && WithinLimits(l, rs[..n])
    ensures WithinLimits(l, rs[..Taken(l, rs, n)])
    decreases |rs| - n
  {
    if n < |rs| && Verdict(l, n, |Lines(rs[..n])|, rs[n]) == Added {
      assert rs[..n + 1][..n] == rs[..n];
      assert |Lines(rs[..n + 1])| == |Lines(rs[..n])| + Size(rs[n]);
      TakenWithin(l, rs, n + 1);
    }
  }

  /** Push rows until one does not fit or there are none left. */
  method FillPage(l: Limits, rs: seq<Row>) returns (page: Page, k: nat)
    requires AllObjects(rs)
    ensures fresh(page) && k == Taken(l, rs, 0)
    ensures page.buf == Lines(rs[..k]) && page.rows == k
  {
    page := new Page(l);
    k := 0;
    while k < |rs|
      invariant k <= |rs| && page.limits == l && page.rows == k && fresh(page)
      invariant page.buf == Lines(rs[..k])
      invariant Taken(l, rs, 0) == Taken(l, rs, k)
    {
      assert rs[..k + 1][..k] == rs[..k];
      var r := page.Push(rs[k]);
      if r != Added {
        return;
      }
      k := k + 1;
    }
  }

  // ---- page after page ----

  /** The rows of each page when every page starts at the row the last one could not take. */
  function Paginate(l: Limits, rs: seq<Row>): (pages: seq<seq<Row>>)
    requires Usable(l) && AllObjects(rs)
    decreases |rs|
  {
    if rs == [] then []
    else
      TakesOne(l, rs);
      var k := Taken(l, rs, 0);
      [rs[..k]] + Paginate(l, rs[k..])
  }

  /** The first row of a page always goes in, so paging makes progress. */
  lemma {:induction false} TakesOne(l: Limits, rs: seq<Row>)
    requires Usable(l) && AllObjects(rs) && rs != []
    ensures Taken(l, rs, 0) >= 1
  {
  }

  function Concat(pages: seq<seq<Row>>): seq<Row> {
    if pages == [] then [] else pages[0] + Concat(pages[1..])
  }

  /** The page stops where the next row would pass a limit, not before. */
  ghost predicate NoRoomFor(l: Limits, page: seq<Row>, next: Row)
    requires AllObjects(page) && next.Text?
  {
    |page| >= l.maxRows || |Lines(page)| + Size(next) > l.maxBytes
  }

  lemma {:induction false} StopsForNext(l: Limits, rs: seq<Row>)
    requires AllObjects(rs) && Taken(l, rs, 0) < |rs|
    ensures NoRoomFor(l, rs[..Taken(l, rs, 0)], rs[Taken(l, rs, 0)])
  {
    hide Taken, Lines;
    TakenStops(l, rs, 0);
  }

  /**
  Paging any object rows, each no larger than the largest page, gives them all
  back in order, with no page empty or beyond its limits, none ended early, and
  at most one page per row.
  */
  lemma {:induction false} PagesPartition(l: Limits, rs: seq<Row>)
    requires Usable(l) && AllObjects(rs)
    ensures var pages := Paginate(l, rs);
            && Concat(pages) == rs && |pages| <= |rs|
            && (forall i :: 0 <= i < |pages| ==> pages[i] != [] && AllObjects(pages[i]) && WithinLimits(l, pages[i]))
            && (forall i :: 0 <= i < |pages| - 1 ==> NoRoomFor(l, pages[i], pages[i + 1][0]))
    decreases |rs|
  {
    hide WithinLimits, Lines, NoRoomFor, Taken;
    if rs != [] {
      TakesOne(l, rs);
      var k := Taken(l, rs, 0);
      var rest := Paginate(l, rs[k..]);
      PagesPartition(l, rs[k..]);
      EmptyWithin(l);
      assert rs[..0] == [];
      TakenWithin(l, rs, 0);
      assert rs[..k] + rs[k..] == rs;
      var pages := [rs[..k]] + rest;
      assert pages[1..] == rest;
      if rest != [] {
        assert rest[0][0] == Concat(rest)[0] == rs[k];
        assert NoRoomFor(l, rs[..k], rs[k]) by {
          StopsForNext(l, rs);
        }
      }
    }
  }

  lemma {:induction false} EmptyWithin(l: Limits)
    ensures WithinLimits(l, [])
  {
  }
}
