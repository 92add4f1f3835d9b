/**
 A half of a split written without room, when all its cells but the last stay behind the header: which slots and which
 records are right, however many of the cells lie over slots.

 The cells do not overlap each other, and neither do the slots. So a slot is damaged only by cells that come later, and
 a record only by its own slot and later ones, each byte once. Past the header nothing of this holds any more: a cell
 over the free pointer decides where the next one goes.
 */
module FilledPage {
  import opened Bytes
  import opened Records
  import opened TreeModel
  import opened Layout
  import opened PageOps
  import opened Refine
  import opened ShortPage
  import opened HalfPage
  import T = TightPage

  // ---------------------------------------------------------------- bytes over right bytes

  /** Writing y over bytes that are all right leaves x right exactly when the rest was right and the two agree. */
  lemma OverKeeps(s: Page, a: nat, x: Page, b: nat, y: Page)
    requires a + |x| <= |s| && b + |y| <= |s|
    requires forall k | 0 <= k < |x| && b <= a + k < b + |y| :: s[a + k] == x[k]
    ensures Over(s, b, y)[a..a + |x|] == x <==> s[a..a + |x|] == x && Compatible(a, x, b, y)
    ensures forall k | 0 <= k < |s| && !(b <= k < b + |y|) :: Over(s, b, y)[k] == s[k]
  {
    var t := Over(s, b, y);
    assert forall k | 0 <= k < |s| :: t[k] == if b <= k < b + |y| then y[k - b] else s[k];
    var was, now := s[a..a + |x|], t[a..a + |x|];
    forall k | 0 <= k < |x|
      ensures now[k] == if b <= a + k < b + |y| then y[a + k - b] else was[k]
    {
    }
    if now == x {
      forall k | 0 <= k < |x|
        ensures was[k] == x[k]
      {
      }
    }
  }

  lemma OverBeside(s: Page, a: nat, n: nat, b: nat, y: Page)
    requires a + n <= |s| && b + |y| <= |s| && (a + n <= b || b + |y| <= a)
    ensures Over(s, b, y)[a..a + n] == s[a..a + n]
    ensures forall k | a <= k < a + n :: Over(s, b, y)[k] == s[k]
  {
    var t := Over(s, b, y);
    assert forall k | 0 <= k < |s| :: t[k] == if b <= k < b + |y| then y[k - b] else s[k];
  }

  lemma OverHolds(s: Page, b: nat, y: Page, u: nat)
    requires b + |y| <= |s| && u <= |y|
    ensures Over(s, b, y)[b + u..b + |y|] == y[u..]
    ensures forall k | 0 <= k < |y| :: Over(s, b, y)[b + k] == y[k]
  {
    var t := Over(s, b, y);
    assert forall k | 0 <= k < |s| :: t[k] == if b <= k < b + |y| then y[k - b] else s[k];
  }

  // ---------------------------------------------------------------- where the cells go

  /** The cells grow downward from the end of the page. */
  function Offset(cfg: Cfg, leaf: bool, cells: seq<Cell>, i: nat): nat
    requires i < |cells|
  {
    Filled(cfg, leaf, cells[..i + 1])
  }

  predicate AllLegal(acc: Acc, leaf: bool, cells: seq<Cell>) {
    forall i | 0 <= i < |cells| :: Legal(acc, leaf, cells[i])
  }

  /** The first n cells stay behind the header. */
  predicate Clear(cfg: Cfg, leaf: bool, cells: seq<Cell>, n: nat)
    requires n <= |cells|
  {
    HEADER + UsedBy(cfg, leaf, cells[..n]) <= cfg.pageSize < 0x1_0000
  }

  /** All cells but the last stay behind the header. */
  predicate OneOver(cfg: Cfg, leaf: bool, cells: seq<Cell>) {
    cells != [] && AllLegal(cfg.acc, leaf, cells) && Clear(cfg, leaf, cells, |cells| - 1)
  }

  lemma UsedStep(cfg: Cfg, leaf: bool, cells: seq<Cell>, n: nat)
    requires n < |cells|
    ensures UsedBy(cfg, leaf, cells[..n + 1]) == UsedBy(cfg, leaf, cells[..n]) + SizeOf(cfg.acc, leaf, cells[n])
  {
    assert cells[..n + 1][..n] == cells[..n];
  }

  lemma {:induction false} UsedUpTo(cfg: Cfg, leaf: bool, cells: seq<Cell>, i: nat, n: nat)
    requires i <= n <= |cells|
    ensures UsedBy(cfg, leaf, cells[..i]) + 10 * (n - i) <= UsedBy(cfg, leaf, cells[..n])
    decreases n
  {
    if i < n {
      UsedUpTo(cfg, leaf, cells, i, n - 1);
      UsedStep(cfg, leaf, cells, n - 1);
      SizeTen(cfg.acc, leaf, cells[n - 1]);
    }
  }

  /** Cell i lies between the next one and the one before. */
  lemma Offsets(cfg: Cfg, leaf: bool, cells: seq<Cell>, i: nat, n: nat)
    requires i < n <= |cells| && UsedBy(cfg, leaf, cells[..n]) <= cfg.pageSize
    ensures Filled(cfg, leaf, cells[..n]) <= Offset(cfg, leaf, cells, i)
    ensures Offset(cfg, leaf, cells, i) + SizeOf(cfg.acc, leaf, cells[i]) == Filled(cfg, leaf, cells[..i])
    ensures Filled(cfg, leaf, cells[..i]) <= cfg.pageSize
    ensures UsedBy(cfg, leaf, cells[..i + 1]) <= cfg.pageSize
  {
    UsedStep(cfg, leaf, cells, i);
    UsedUpTo(cfg, leaf, cells, i + 1, n);
  }

  // ---------------------------------------------------------------- what is right

  /** No later cell overwrites slot i with other bytes. */
  predicate SlotKept(cfg: Cfg, leaf: bool, cells: seq<Cell>, i: nat, n: nat)
    requires i < n <= |cells| && AllLegal(cfg.acc, leaf, cells)
  {
    forall j | i < j < n ::
      Compatible(HEADER + SLOT * i, ToLE(2, Offset(cfg, leaf, cells, i)),
                 Offset(cfg, leaf, cells, j), Enc(cfg.acc, leaf, cells[j]))
  }

  /** Neither its own slot nor a later one, nor the count, overwrites record i with other bytes. */
  predicate RecordKept(cfg: Cfg, leaf: bool, cells: seq<Cell>, i: nat, n: nat)
    requires i < n <= |cells| && AllLegal(cfg.acc, leaf, cells)
  {
    var a, core := Offset(cfg, leaf, cells, i) + Unread(cfg.acc, leaf), Core(cfg.acc, leaf, cells[i]);
    && (forall j | i <= j < n :: Compatible(a, core, HEADER + SLOT * j, ToLE(2, Offset(cfg, leaf, cells, j))))
    && Compatible(a, core, OFF_NUM_CELLS, ToLE(2, n))
  }

  // ---------------------------------------------------------------- one more cell

  /** Slot i after n cells: right if no later cell disagrees, and in any case where no cell has been. */
  ghost predicate SlotState(cfg: Cfg, leaf: bool, cells: seq<Cell>, n: nat, t: Page, i: nat)
    requires i < n <= |cells| && AllLegal(cfg.acc, leaf, cells)
  {
    var a, x := HEADER + SLOT * i, ToLE(2, Offset(cfg, leaf, cells, i));
    && a + SLOT <= |t|
    && (t[a..a + SLOT] == x <==> SlotKept(cfg, leaf, cells, i, n))
    && forall k | 0 <= k < SLOT && a + k < Filled(cfg, leaf, cells[..n]) :: t[a + k] == x[k]
  }

  /** The record of cell i after n cells, and its bytes where no slot and no count has been. */
  ghost predicate RecordState(cfg: Cfg, leaf: bool, cells: seq<Cell>, n: nat, t: Page, i: nat)
    requires i < n <= |cells| && AllLegal(cfg.acc, leaf, cells)
  {
    var a, x := Offset(cfg, leaf, cells, i) + Unread(cfg.acc, leaf), Core(cfg.acc, leaf, cells[i]);
    && a + |x| <= |t|
    && (t[a..a + |x|] == x <==> RecordKept(cfg, leaf, cells, i, n))
    && forall k | 0 <= k < |x| && (OFF_RIGHTMOST <= a + k < HEADER || HEADER + SLOT * n <= a + k) :: t[a + k] == x[k]
  }

  ghost predicate HeaderState(cfg: Cfg, leaf: bool, cells: seq<Cell>, n: nat, t: Page)
    requires n <= |cells|
  {
    && |t| == cfg.pageSize >= HEADER && IsLeaf(t) == leaf && NumCells(t) == n
    && CellContent(t) == Filled(cfg, leaf, cells[..n]) && Rightmost(t) == 0 && NextLeaf(t) == INVALID_PAGE
  }

  // ---------------------------------------------------------------- the four writes of one AppendCell

  function Four(s: Page, x: Page, top: nat, e: Page, b: nat, y: Page, z: Page): (t: Page)
    requires |x| == |y| == |z| == 2 && HEADER <= b && b + 2 <= |s| && top + |e| <= |s|
    ensures |t| == |s|
  {
    Over(Over(Over(Over(s, OFF_CONTENT, x), top, e), b, y), OFF_NUM_CELLS, z)
  }

  /** An older slot, right wherever no cell has been. */
  lemma OlderSlot(s: Page, x: Page, top: nat, e: Page, b: nat, y: Page, z: Page, a: nat, slot: Page)
    requires |x| == |y| == |z| == |slot| == 2 && HEADER <= a && a + 2 <= b && b + 2 <= |s| && top + |e| <= |s|
    requires forall k | 0 <= k < 2 && a + k < top + |e| :: s[a + k] == slot[k]
    ensures var t := Four(s, x, top, e, b, y, z);
      && (t[a..a + 2] == slot <==> s[a..a + 2] == slot && Compatible(a, slot, top, e))
      && forall k | 0 <= k < 2 && a + k < top :: t[a + k] == slot[k]
  {
    hide Compatible, Over;
    var s1 := Over(s, OFF_CONTENT, x);
    var s2 := Over(s1, top, e);
    var s3 := Over(s2, b, y);
    OverBeside(s, a, 2, OFF_CONTENT, x);
    OverKeeps(s1, a, slot, top, e);
    OverBeside(s2, a, 2, b, y);
    OverBeside(s3, a, 2, OFF_NUM_CELLS, z);
  }

  /** The record of an older cell, right wherever no slot has been. */
  lemma OlderRecord(s: Page, x: Page, top: nat, e: Page, b: nat, y: Page, z: Page, a: nat, core: Page)
    requires |x| == |y| == |z| == 2 && HEADER <= b && b + 2 <= |s|
    requires HEADER <= top + |e| <= a && a + |core| <= |s|
    requires forall k | 0 <= k < |core| && b <= a + k :: s[a + k] == core[k]
    ensures var t := Four(s, x, top, e, b, y, z);
      && (t[a..a + |core|] == core <==> s[a..a + |core|] == core && Compatible(a, core, b, y))
      && forall k | 0 <= k < |core| && b + 2 <= a + k :: t[a + k] == core[k]
  {
    hide Compatible, Over;
    var s1 := Over(s, OFF_CONTENT, x);
    var s2 := Over(s1, top, e);
    var s3 := Over(s2, b, y);
    OverBeside(s, a, |core|, OFF_CONTENT, x);
    OverBeside(s1, a, |core|, top, e);
    OverKeeps(s2, a, core, b, y);
    OverBeside(s3, a, |core|, OFF_NUM_CELLS, z);
  }

  lemma CellWritten(s: Page, top: nat, e: Page, u: nat)
    requires top + |e| <= |s| && u <= |e|
    ensures var t, a, core := Over(s, top, e), top + u, e[u..];
      t[a..a + |core|] == core && forall k | 0 <= k < |core| :: t[a + k] == core[k]
  {
    hide Over;
    OverHolds(s, top, e, u);
    assert forall k | 0 <= k < |e[u..]| :: e[u..][k] == e[u + k];
  }

  /** A record that stands on the page, when its slot and the count are written. */
  lemma UnderSlot(s: Page, a: nat, core: Page, b: nat, y: Page, z: Page)
    requires |y| == |z| == 2 && HEADER <= b && b + 2 <= |s| && a + |core| <= |s|
    requires s[a..a + |core|] == core && forall k | 0 <= k < |core| :: s[a + k] == core[k]
    ensures var t := Over(Over(s, b, y), OFF_NUM_CELLS, z);
      && t[b..b + 2] == y && (forall k | 0 <= k < 2 :: t[b + k] == y[k])
      && (t[a..a + |core|] == core <==> Compatible(a, core, b, y) && Compatible(a, core, OFF_NUM_CELLS, z))
      && forall k | 0 <= k < |core| && (OFF_RIGHTMOST <= a + k < HEADER || b + 2 <= a + k) :: t[a + k] == core[k]
  {
    hide Compatible, Over;
    var s' := Over(s, b, y);
    OverKeeps(s, a, core, b, y);
    OverHolds(s, b, y, 0);
    OverKeeps(s', a, core, OFF_NUM_CELLS, z);
    OverBeside(s', b, 2, OFF_NUM_CELLS, z);
  }

  /** The new slot and the new record. */
  lemma NewOnes(s: Page, x: Page, top: nat, e: Page, b: nat, y: Page, z: Page, u: nat)
    requires |x| == |y| == |z| == 2 && HEADER <= b && b + 2 <= |s| && top + |e| <= |s| && u <= |e|
    ensures var t, a, core := Four(s, x, top, e, b, y, z), top + u, e[u..];
      && t[b..b + 2] == y && (forall k | 0 <= k < 2 :: t[b + k] == y[k])
      && (t[a..a + |core|] == core <==> Compatible(a, core, b, y) && Compatible(a, core, OFF_NUM_CELLS, z))
      && forall k | 0 <= k < |core| && (OFF_RIGHTMOST <= a + k < HEADER || b + 2 <= a + k) :: t[a + k] == core[k]
  {
    hide Compatible, Over;
    var s1 := Over(s, OFF_CONTENT, x);
    CellWritten(s1, top, e, u);
    UnderSlot(Over(s1, top, e), top + u, e[u..], b, y, z);
  }

  // ---------------------------------------------------------------- one more cell

  /** The page after n cells, before cell n is appended. */
  ghost predicate Before(cfg: Cfg, leaf: bool, cells: seq<Cell>, n: nat, s: Page) {
    && n < |cells| && AllLegal(cfg.acc, leaf, cells) && Clear(cfg, leaf, cells, n)
    && UsedBy(cfg, leaf, cells[..n + 1]) <= cfg.pageSize && HEADER + SLOT * n + SLOT <= cfg.pageSize
    && HeaderState(cfg, leaf, cells, n, s)
  }

  lemma Appending(cfg: Cfg, leaf: bool, cells: seq<Cell>, n: nat, s: Page)
    requires Before(cfg, leaf, cells, n, s)
    ensures var top, e := Offset(cfg, leaf, cells, n), Enc(cfg.acc, leaf, cells[n]);
      && top + |e| == Filled(cfg, leaf, cells[..n]) <= |s| == cfg.pageSize && HEADER <= Filled(cfg, leaf, cells[..n])
      && HEADER + SLOT * n + SLOT <= |s|
      && Appendable(cfg.acc, s, cells[n])
      && Appended(cfg.acc, s, cells[n])
         == Four(s, ToLE(2, top), top, e, HEADER + SLOT * n, ToLE(2, top), ToLE(2, n + 1))
  {
    hide Over, Enc, ToLE;
    UsedStep(cfg, leaf, cells, n);
  }

  lemma SlotStep(cfg: Cfg, leaf: bool, cells: seq<Cell>, n: nat, s: Page, i: nat)
    requires Before(cfg, leaf, cells, n, s) && i < n && SlotState(cfg, leaf, cells, n, s, i)
    ensures Appendable(cfg.acc, s, cells[n]) && AllLegal(cfg.acc, leaf, cells)
    ensures SlotState(cfg, leaf, cells, n + 1, Appended(cfg.acc, s, cells[n]), i)
  {
    hide Over, Enc, ToLE, Four, Appended, Compatible, HeaderState, Clear, Filled, Legal;
    Appending(cfg, leaf, cells, n, s);
    var top := Offset(cfg, leaf, cells, n);
    OlderSlot(s, ToLE(2, top), top, Enc(cfg.acc, leaf, cells[n]), HEADER + SLOT * n, ToLE(2, top), ToLE(2, n + 1),
              HEADER + SLOT * i, ToLE(2, Offset(cfg, leaf, cells, i)));
  }

  lemma RecordStep(cfg: Cfg, leaf: bool, cells: seq<Cell>, n: nat, s: Page, i: nat)
    requires Before(cfg, leaf, cells, n, s) && i < n && RecordState(cfg, leaf, cells, n, s, i)
    ensures Appendable(cfg.acc, s, cells[n]) && AllLegal(cfg.acc, leaf, cells)
    ensures RecordState(cfg, leaf, cells, n + 1, Appended(cfg.acc, s, cells[n]), i)
  {
    hide *;
    Appending(cfg, leaf, cells, n, s);
    BeforeParts(cfg, leaf, cells, n, s);
    RecordKeptStep(cfg, leaf, cells, i, n);
    RecordOpen(cfg, leaf, cells, n, s, i);
    var top := Offset(cfg, leaf, cells, n);
    OlderRecord(s, ToLE(2, top), top, Enc(cfg.acc, leaf, cells[n]), HEADER + SLOT * n, ToLE(2, top), ToLE(2, n + 1),
                Offset(cfg, leaf, cells, i) + Unread(cfg.acc, leaf), Core(cfg.acc, leaf, cells[i]));
    RecordClose(cfg, leaf, cells, n + 1, Appended(cfg.acc, s, cells[n]), i);
  }

  lemma BeforeParts(cfg: Cfg, leaf: bool, cells: seq<Cell>, n: nat, s: Page)
    requires Before(cfg, leaf, cells, n, s)
    ensures n < |cells| && AllLegal(cfg.acc, leaf, cells) && Clear(cfg, leaf, cells, n) && |ToLE(2, n + 1)| == 2
    ensures Legal(cfg.acc, leaf, cells[n])
    ensures |ToLE(2, Offset(cfg, leaf, cells, n))| == 2 && HEADER == 13 && SLOT == 2 && OFF_RIGHTMOST == 5
  {
    hide ToLE, Filled;
  }

  lemma RecordOpen(cfg: Cfg, leaf: bool, cells: seq<Cell>, n: nat, t: Page, i: nat)
    requires i < n <= |cells| && AllLegal(cfg.acc, leaf, cells) && RecordState(cfg, leaf, cells, n, t, i)
    ensures Legal(cfg.acc, leaf, cells[i])
    ensures var a, x := Offset(cfg, leaf, cells, i) + Unread(cfg.acc, leaf), Core(cfg.acc, leaf, cells[i]);
      && a + |x| <= |t|
      && (t[a..a + |x|] == x <==> RecordKept(cfg, leaf, cells, i, n))
      && forall k | 0 <= k < |x| && HEADER + SLOT * n <= a + k :: t[a + k] == x[k]
  {
    hide Filled, RecordKept, Core, Legal;
  }

  lemma RecordClose(cfg: Cfg, leaf: bool, cells: seq<Cell>, n: nat, t: Page, i: nat)
    requires i < n <= |cells| && AllLegal(cfg.acc, leaf, cells) && HEADER <= Offset(cfg, leaf, cells, i)
    requires var a, x := Offset(cfg, leaf, cells, i) + Unread(cfg.acc, leaf), Core(cfg.acc, leaf, cells[i]);
      && a + |x| <= |t|
      && (t[a..a + |x|] == x <==> RecordKept(cfg, leaf, cells, i, n))
      && forall k | 0 <= k < |x| && HEADER + SLOT * n <= a + k :: t[a + k] == x[k]
    ensures RecordState(cfg, leaf, cells, n, t, i)
  {
    hide Filled, RecordKept, Core, Legal;
  }

  lemma RecordKeptStep(cfg: Cfg, leaf: bool, cells: seq<Cell>, i: nat, n: nat)
    requires i < n < |cells| && AllLegal(cfg.acc, leaf, cells) && Clear(cfg, leaf, cells, n)
    ensures HEADER <= Filled(cfg, leaf, cells[..n]) <= Offset(cfg, leaf, cells, i)
    ensures var a, core := Offset(cfg, leaf, cells, i) + Unread(cfg.acc, leaf), Core(cfg.acc, leaf, cells[i]);
      RecordKept(cfg, leaf, cells, i, n + 1) <==>
        (RecordKept(cfg, leaf, cells, i, n)
         && Compatible(a, core, HEADER + SLOT * n, ToLE(2, Offset(cfg, leaf, cells, n))))
  {
    hide Compatible, Core, ToLE, Filled, Clear;
    BehindHeader(cfg, leaf, cells, i, n);
    var a, core := Offset(cfg, leaf, cells, i) + Unread(cfg.acc, leaf), Core(cfg.acc, leaf, cells[i]);
    T.NoOverlap(a, core, OFF_NUM_CELLS, ToLE(2, n));
    T.NoOverlap(a, core, OFF_NUM_CELLS, ToLE(2, n + 1));
  }

  lemma BehindHeader(cfg: Cfg, leaf: bool, cells: seq<Cell>, i: nat, n: nat)
    requires i < n <= |cells| && Clear(cfg, leaf, cells, n)
    ensures HEADER <= Filled(cfg, leaf, cells[..n]) <= Offset(cfg, leaf, cells, i)
  {
    Offsets(cfg, leaf, cells, i, n);
  }

  lemma NewStep(cfg: Cfg, leaf: bool, cells: seq<Cell>, n: nat, s: Page)
    requires Before(cfg, leaf, cells, n, s)
    ensures Appendable(cfg.acc, s, cells[n]) && AllLegal(cfg.acc, leaf, cells)
    ensures SlotState(cfg, leaf, cells, n + 1, Appended(cfg.acc, s, cells[n]), n)
    ensures RecordState(cfg, leaf, cells, n + 1, Appended(cfg.acc, s, cells[n]), n)
  {
    hide Over, Enc, ToLE, Four, Appended, Compatible, HeaderState, Clear, Filled, Legal, RecordKept, Core;
    Appending(cfg, leaf, cells, n, s);
    var top := Offset(cfg, leaf, cells, n);
    NewKept(cfg, leaf, cells, n);
    NewOnes(s, ToLE(2, top), top, Enc(cfg.acc, leaf, cells[n]), HEADER + SLOT * n, ToLE(2, top), ToLE(2, n + 1),
            Unread(cfg.acc, leaf));
  }

  lemma NewKept(cfg: Cfg, leaf: bool, cells: seq<Cell>, n: nat)
    requires n < |cells| && AllLegal(cfg.acc, leaf, cells)
    ensures var e, u, core := Enc(cfg.acc, leaf, cells[n]), Unread(cfg.acc, leaf), Core(cfg.acc, leaf, cells[n]);
      var a, y := Offset(cfg, leaf, cells, n) + u, ToLE(2, Offset(cfg, leaf, cells, n));
      && u <= |e| && core == e[u..]
      && (RecordKept(cfg, leaf, cells, n, n + 1) <==>
            Compatible(a, core, HEADER + SLOT * n, y) && Compatible(a, core, OFF_NUM_CELLS, ToLE(2, n + 1)))
  {
    hide ToLE, Filled, Compatible;
    T.CoreSize(cfg.acc, leaf, cells[n]);
  }

  /** The page type goes wrong exactly when the cell starts at offset 0 with another byte. */
  predicate KindKept(cfg: Cfg, leaf: bool, cells: seq<Cell>, n: nat)
    requires n < |cells| && AllLegal(cfg.acc, leaf, cells)
  {
    Offset(cfg, leaf, cells, n) == 0 ==> (Enc(cfg.acc, leaf, cells[n])[0] == 1) == leaf
  }

  lemma HeaderStep(cfg: Cfg, leaf: bool, cells: seq<Cell>, n: nat, s: Page)
    requires Before(cfg, leaf, cells, n, s)
    ensures Appendable(cfg.acc, s, cells[n]) && AllLegal(cfg.acc, leaf, cells)
    ensures var t := Appended(cfg.acc, s, cells[n]);
      && |t| == cfg.pageSize >= HEADER && NumCells(t) == n + 1
      && (IsLeaf(t) == leaf <==> KindKept(cfg, leaf, cells, n))
    ensures HEADER <= Offset(cfg, leaf, cells, n) ==>
      KindKept(cfg, leaf, cells, n) && HeaderState(cfg, leaf, cells, n + 1, Appended(cfg.acc, s, cells[n]))
  {
    hide Over, Enc, ToLE, Four, Appended, Compatible, Clear, Filled, Legal, FromLE;
    Appending(cfg, leaf, cells, n, s);
    var c, t, top := cells[n], Appended(cfg.acc, s, cells[n]), Offset(cfg, leaf, cells, n);
    Widths();
    var s1, s2, s3 := Writes(cfg.acc, s, c);
    Field(t[OFF_NUM_CELLS..OFF_NUM_CELLS + 2], 2, n + 1);
    KindAfter(cfg.acc, s, c);
    LinkAfter(cfg.acc, s, c, OFF_RIGHTMOST, 0);
    LinkAfter(cfg.acc, s, c, OFF_NEXT_LEAF, INVALID_PAGE);
    if HEADER <= top {
      T.NoOverlap(OFF_RIGHTMOST, ToLE(4, 0), top, Enc(cfg.acc, leaf, c));
      T.NoOverlap(OFF_NEXT_LEAF, ToLE(4, INVALID_PAGE), top, Enc(cfg.acc, leaf, c));
      assert t[OFF_CONTENT..OFF_CONTENT + 2] == s3[OFF_CONTENT..OFF_CONTENT + 2]
          == s2[OFF_CONTENT..OFF_CONTENT + 2] == s1[OFF_CONTENT..OFF_CONTENT + 2];
      ContentHolds(t, top);
    }
  }

  // ---------------------------------------------------------------- all cells

  /** The slots of cells behind the header are on the page. */
  lemma SlotsOn(cfg: Cfg, leaf: bool, cells: seq<Cell>, n: nat)
    requires n <= |cells| && Clear(cfg, leaf, cells, n)
    ensures HEADER + SLOT * n <= cfg.pageSize && (n > 0 ==> HEADER + SLOT * n + SLOT <= cfg.pageSize)
  {
    UsedUpTo(cfg, leaf, cells, 0, n);
  }

  lemma ClearBefore(cfg: Cfg, leaf: bool, cells: seq<Cell>, n: nat)
    requires n < |cells| && Clear(cfg, leaf, cells, n + 1)
    ensures Clear(cfg, leaf, cells, n) && HEADER <= Offset(cfg, leaf, cells, n)
    ensures UsedBy(cfg, leaf, cells[..n + 1]) <= cfg.pageSize && HEADER + SLOT * n + SLOT <= cfg.pageSize
  {
    UsedStep(cfg, leaf, cells, n);
    SlotsOn(cfg, leaf, cells, n + 1);
  }

  /** What is known of the slots and records after n cells. */
  ghost predicate State(cfg: Cfg, leaf: bool, cells: seq<Cell>, n: nat, t: Page) {
    && n <= |cells| && AllLegal(cfg.acc, leaf, cells)
    && forall i | 0 <= i < n :: SlotState(cfg, leaf, cells, n, t, i) && RecordState(cfg, leaf, cells, n, t, i)
  }

  lemma BlankState(cfg: Cfg, s: Page, leaf: bool, cells: seq<Cell>)
    requires Repr(cfg, s, Blank(cfg, leaf)) && AllLegal(cfg.acc, leaf, cells)
    ensures Fillable(cfg.acc, s, cells[..0]) && Fill(cfg.acc, s, cells[..0]) == s
    ensures State(cfg, leaf, cells, 0, s) && HeaderState(cfg, leaf, cells, 0, s)
  {
    Sizes(cfg, s, Blank(cfg, leaf));
    assert UsedBy(cfg, leaf, cells[..0]) == 0;
  }

  lemma FillStep(acc: Acc, s: Page, cells: seq<Cell>, n: nat)
    requires n < |cells| && Fillable(acc, s, cells[..n])
    ensures Fillable(acc, s, cells[..n + 1]) <==> Appendable(acc, Fill(acc, s, cells[..n]), cells[n])
    ensures Fillable(acc, s, cells[..n + 1]) ==>
      Fill(acc, s, cells[..n + 1]) == Appended(acc, Fill(acc, s, cells[..n]), cells[n])
  {
    hide Appendable, Appended;
    assert cells[..n + 1][..n] == cells[..n];
  }

  /** As long as the cells stay behind the header, all of this is known. */
  lemma {:induction false} Filling(cfg: Cfg, s: Page, leaf: bool, cells: seq<Cell>, n: nat)
    requires Repr(cfg, s, Blank(cfg, leaf)) && AllLegal(cfg.acc, leaf, cells)
    requires n <= |cells| && Clear(cfg, leaf, cells, n)
    ensures Fillable(cfg.acc, s, cells[..n]) && State(cfg, leaf, cells, n, Fill(cfg.acc, s, cells[..n]))
    ensures HeaderState(cfg, leaf, cells, n, Fill(cfg.acc, s, cells[..n]))
    decreases n
  {
    hide Repr, Blank, AllLegal, Clear, Fillable, Fill, HeaderState, SlotState, RecordState, Appended, Appendable,
      UsedBy;
    if n == 0 {
      BlankState(cfg, s, leaf, cells);
    } else {
      ClearBefore(cfg, leaf, cells, n - 1);
      Filling(cfg, s, leaf, cells, n - 1);
      var before := Fill(cfg.acc, s, cells[..n - 1]);
      AllSteps(cfg, leaf, cells, n - 1, before);
      HeaderStep(cfg, leaf, cells, n - 1, before);
      FillStep(cfg.acc, s, cells, n - 1);
    }
  }

  lemma AllSteps(cfg: Cfg, leaf: bool, cells: seq<Cell>, n: nat, s: Page)
    requires Before(cfg, leaf, cells, n, s) && State(cfg, leaf, cells, n, s)
    ensures Appendable(cfg.acc, s, cells[n]) && State(cfg, leaf, cells, n + 1, Appended(cfg.acc, s, cells[n]))
  {
    hide AllLegal, Clear, HeaderState, SlotState, RecordState, Appended, Appendable, UsedBy, Before;
    BeforeFacts(cfg, leaf, cells, n, s);
    NewStep(cfg, leaf, cells, n, s);
    var t, m := Appended(cfg.acc, s, cells[n]), n + 1;
    forall i | 0 <= i < m
      ensures SlotState(cfg, leaf, cells, m, t, i) && RecordState(cfg, leaf, cells, m, t, i)
    {
      if i < n {
        SlotStep(cfg, leaf, cells, n, s, i);
        RecordStep(cfg, leaf, cells, n, s, i);
      }
    }
  }

  lemma BeforeFacts(cfg: Cfg, leaf: bool, cells: seq<Cell>, n: nat, s: Page)
    requires Before(cfg, leaf, cells, n, s)
    ensures n < |cells| && AllLegal(cfg.acc, leaf, cells) && Appendable(cfg.acc, s, cells[n])
  {
    Appending(cfg, leaf, cells, n, s);
  }

  // ---------------------------------------------------------------- the last cell and the link

  /** Such a half is written, without a panic, exactly when its cells and the first slot are not more than a page. */
  lemma FillableExactly(cfg: Cfg, s: Page, leaf: bool, cells: seq<Cell>)
    requires Repr(cfg, s, Blank(cfg, leaf)) && OneOver(cfg, leaf, cells)
    ensures Fillable(cfg.acc, s, cells) <==> UsedBy(cfg, leaf, cells) <= cfg.pageSize && HEADER + SLOT <= cfg.pageSize
    ensures Fillable(cfg.acc, s, cells) ==>
      && State(cfg, leaf, cells, |cells|, Fill(cfg.acc, s, cells))
      && var t := Fill(cfg.acc, s, cells);
         |t| == cfg.pageSize >= HEADER && NumCells(t) == |cells|
         && (IsLeaf(t) == leaf <==> KindKept(cfg, leaf, cells, |cells| - 1))
  {
    hide Repr, Blank, AllLegal, Clear, Fill, HeaderState, SlotState, RecordState, Appended, UsedBy, KindKept, State,
      Fillable, Appendable, SizeOf, Before;
    var n := |cells| - 1;
    assert cells[..n + 1] == cells;
    Filling(cfg, s, leaf, cells, n);
    FillStep(cfg.acc, s, cells, n);
    var before := Fill(cfg.acc, s, cells[..n]);
    RoomForLast(cfg, leaf, cells, before);
    if Appendable(cfg.acc, before, cells[n]) {
      AllSteps(cfg, leaf, cells, n, before);
      HeaderStep(cfg, leaf, cells, n, before);
    }
  }

  lemma RoomForLast(cfg: Cfg, leaf: bool, cells: seq<Cell>, s: Page)
    requires OneOver(cfg, leaf, cells) && HeaderState(cfg, leaf, cells, |cells| - 1, s)
    ensures Appendable(cfg.acc, s, cells[|cells| - 1]) <==>
      UsedBy(cfg, leaf, cells) <= cfg.pageSize && HEADER + SLOT <= cfg.pageSize
    ensures Appendable(cfg.acc, s, cells[|cells| - 1]) ==> Before(cfg, leaf, cells, |cells| - 1, s)
  {
    var n := |cells| - 1;
    assert cells[..n + 1] == cells;
    UsedStep(cfg, leaf, cells, n);
    SlotsOn(cfg, leaf, cells, n);
  }

  /** Neither a slot, nor the count, nor the link overwrites record i with other bytes. */
  predicate RecordStands(cfg: Cfg, leaf: bool, cells: seq<Cell>, i: nat, link: nat)
    requires i < |cells| && AllLegal(cfg.acc, leaf, cells)
  {
    && RecordKept(cfg, leaf, cells, i, |cells|)
    && (!leaf || cfg.acc.CopyUp() ==>
          Compatible(Offset(cfg, leaf, cells, i) + Unread(cfg.acc, leaf), Core(cfg.acc, leaf, cells[i]),
                     if leaf then OFF_NEXT_LEAF else OFF_RIGHTMOST, ToLE(4, link)))
  }

  /** What the link leaves of slot and record i. */
  lemma LinkStep(cfg: Cfg, s: Page, leaf: bool, cells: seq<Cell>, link: nat, i: nat)
    requires |s| >= HEADER && Fillable(cfg.acc, s, cells) && AllLegal(cfg.acc, leaf, cells) && i < |cells|
    requires SlotState(cfg, leaf, cells, |cells|, Fill(cfg.acc, s, cells), i)
    requires RecordState(cfg, leaf, cells, |cells|, Fill(cfg.acc, s, cells), i)
    ensures var half := Half(cfg.acc, s, leaf, cells, link);
      var a, x := HEADER + SLOT * i, ToLE(2, Offset(cfg, leaf, cells, i));
      a + SLOT <= |half| && (half[a..a + SLOT] == x <==> SlotKept(cfg, leaf, cells, i, |cells|))
    ensures var half := Half(cfg.acc, s, leaf, cells, link);
      var a, x := Offset(cfg, leaf, cells, i) + Unread(cfg.acc, leaf), Core(cfg.acc, leaf, cells[i]);
      a + |x| <= |half| && (half[a..a + |x|] == x <==> RecordStands(cfg, leaf, cells, i, link))
  {
    hide *;
    var t, half := Fill(cfg.acc, s, cells), Half(cfg.acc, s, leaf, cells, link);
    SlotKnown(cfg, leaf, cells, t, i);
    RecordKnown(cfg, leaf, cells, t, i, link);
    Linked(cfg, s, leaf, cells, link);
    if !leaf || cfg.acc.CopyUp() {
      LinkOver(t, if leaf then OFF_NEXT_LEAF else OFF_RIGHTMOST, ToLE(4, link), HEADER + SLOT * i,
               Offset(cfg, leaf, cells, i) + Unread(cfg.acc, leaf), Core(cfg.acc, leaf, cells[i]));
    }
  }

  lemma Linked(cfg: Cfg, s: Page, leaf: bool, cells: seq<Cell>, link: nat)
    requires |s| >= HEADER && Fillable(cfg.acc, s, cells)
    ensures OFF_RIGHTMOST == 5 && OFF_NEXT_LEAF == 9 && HEADER == 13 && SLOT == 2
    ensures var t, half := Fill(cfg.acc, s, cells), Half(cfg.acc, s, leaf, cells, link);
      && |t| == |s|
      && half == if !leaf || cfg.acc.CopyUp() then Over(t, if leaf then OFF_NEXT_LEAF else OFF_RIGHTMOST, ToLE(4, link))
                 else t
  {
    hide Fill, Fillable, Over, ToLE;
  }

  lemma LinkOver(t: Page, at: nat, z: Page, b: nat, a: nat, core: Page)
    requires OFF_RIGHTMOST <= at <= OFF_NEXT_LEAF && |z| == 4 && HEADER <= b && b + 2 <= |t| && a + |core| <= |t|
    requires forall k | 0 <= k < |core| && OFF_RIGHTMOST <= a + k < HEADER :: t[a + k] == core[k]
    ensures var h := Over(t, at, z);
      && h[b..b + 2] == t[b..b + 2]
      && (h[a..a + |core|] == core <==> t[a..a + |core|] == core && Compatible(a, core, at, z))
  {
    hide Over, Compatible;
    OverBeside(t, b, 2, at, z);
    OverKeeps(t, a, core, at, z);
  }

  lemma SlotKnown(cfg: Cfg, leaf: bool, cells: seq<Cell>, t: Page, i: nat)
    requires i < |cells| && AllLegal(cfg.acc, leaf, cells) && SlotState(cfg, leaf, cells, |cells|, t, i)
    ensures var a, x := HEADER + SLOT * i, ToLE(2, Offset(cfg, leaf, cells, i));
      a + SLOT <= |t| && (t[a..a + SLOT] == x <==> SlotKept(cfg, leaf, cells, i, |cells|))
  {
    hide ToLE, Filled, SlotKept;
  }

  lemma RecordKnown(cfg: Cfg, leaf: bool, cells: seq<Cell>, t: Page, i: nat, link: nat)
    requires i < |cells| && AllLegal(cfg.acc, leaf, cells) && RecordState(cfg, leaf, cells, |cells|, t, i)
    ensures Legal(cfg.acc, leaf, cells[i]) && |ToLE(4, link)| == 4
    ensures var a, x := Offset(cfg, leaf, cells, i) + Unread(cfg.acc, leaf), Core(cfg.acc, leaf, cells[i]);
      && a + |x| <= |t|
      && (forall k | 0 <= k < |x| && OFF_RIGHTMOST <= a + k < HEADER :: t[a + k] == x[k])
      && (RecordStands(cfg, leaf, cells, i, link) <==>
            && t[a..a + |x|] == x
            && (!leaf || cfg.acc.CopyUp() ==>
                  Compatible(a, x, if leaf then OFF_NEXT_LEAF else OFF_RIGHTMOST, ToLE(4, link))))
  {
    hide Filled, Compatible, RecordKept, Core, Legal;
  }

  lemma HalfHeader(cfg: Cfg, s: Page, leaf: bool, cells: seq<Cell>, link: nat)
    requires |s| >= HEADER && Fillable(cfg.acc, s, cells) && link < 0x1_0000_0000
    ensures var t, half := Fill(cfg.acc, s, cells), Half(cfg.acc, s, leaf, cells, link);
      && |half| == |t| == |s| && NumCells(half) == NumCells(t) && IsLeaf(half) == IsLeaf(t)
      && (!leaf ==> Rightmost(half) == link) && (leaf && cfg.acc.CopyUp() ==> NextLeaf(half) == link)
  {
    hide Over, ToLE, Fill, Fillable, FromLE;
    if !leaf || cfg.acc.CopyUp() {
      var at, t := if leaf then OFF_NEXT_LEAF else OFF_RIGHTMOST, Fill(cfg.acc, s, cells);
      Widths();
      OverWrote(t, at, ToLE(4, link));
      OverBeside(t, 0, 1, at, ToLE(4, link));
      Field(Half(cfg.acc, s, leaf, cells, link)[at..at + 4], 4, link);
    }
  }

  /** Slot and record i of such a half. */
  lemma PlaceExactly(cfg: Cfg, s: Page, leaf: bool, cells: seq<Cell>, link: nat, i: nat)
    requires Repr(cfg, s, Blank(cfg, leaf)) && OneOver(cfg, leaf, cells) && i < |cells| && |s| >= HEADER
    requires Fillable(cfg.acc, s, cells)
    ensures var half := Half(cfg.acc, s, leaf, cells, link);
      && HEADER + SLOT * i + SLOT <= |half|
      && (CellPtr(half, i) == Offset(cfg, leaf, cells, i) <==> SlotKept(cfg, leaf, cells, i, |cells|))
      && (RecordAt(cfg.acc, leaf, half, Offset(cfg, leaf, cells, i), cells[i])
          <==> RecordStands(cfg, leaf, cells, i, link))
  {
    hide Repr, Blank, Clear, Half, Fill, Fillable, UsedBy, CellPtr, RecordAt, SlotKept, RecordStands, Core, ToLE, Legal,
      HeaderState, SizeOf, KindKept;
    Sizes(cfg, s, Blank(cfg, leaf));
    FillableExactly(cfg, s, leaf, cells);
    LinkStep(cfg, s, leaf, cells, link, i);
    assert cells[..|cells|] == cells;
    Offsets(cfg, leaf, cells, i, |cells|);
    var half, x := Half(cfg.acc, s, leaf, cells, link), Offset(cfg, leaf, cells, i);
    SlotValue(half, i, x);
    T.CoreSize(cfg.acc, leaf, cells[i]);
    RecordBytes(cfg.acc, leaf, half, x, cells[i]);
  }

  /**
   A half whose cells but the last stay behind the header. The call panics exactly when the cells alone need more than
   the page. Otherwise the first bytes of each slot and record are right exactly when what is written later agrees with
   them; and the half reads right exactly when the page type is right, each record with a right slot stands, and each
   record with a wrong one happens to stand where that slot leads. The last slot is always right.
   */
  lemma HalfExactly(cfg: Cfg, s: Page, leaf: bool, cells: seq<Cell>, link: nat)
    requires Repr(cfg, s, Blank(cfg, leaf)) && OneOver(cfg, leaf, cells) && link < 0x1_0000_0000
    ensures |s| >= HEADER && |cells| > 0
    ensures Fillable(cfg.acc, s, cells) <==> UsedBy(cfg, leaf, cells) <= cfg.pageSize && HEADER + SLOT <= cfg.pageSize
    ensures Fillable(cfg.acc, s, cells) ==>
      var half, nd := Half(cfg.acc, s, leaf, cells, link), HalfNode(cfg.acc, leaf, cells, link);
      && (forall i | 0 <= i < |cells| ::
            && HEADER + SLOT * i + SLOT <= |half|
            && (CellPtr(half, i) == Offset(cfg, leaf, cells, i) <==> SlotKept(cfg, leaf, cells, i, |cells|))
            && (RecordAt(cfg.acc, leaf, half, Offset(cfg, leaf, cells, i), cells[i])
                <==> RecordStands(cfg, leaf, cells, i, link)))
      && (Reads(cfg, half, nd) <==>
            && KindKept(cfg, leaf, cells, |cells| - 1)
            && forall i | 0 <= i < |cells| ::
                 if SlotKept(cfg, leaf, cells, i, |cells|) then RecordStands(cfg, leaf, cells, i, link)
                 else ReadsAt(cfg.acc, half, nd, i))
      && SlotKept(cfg, leaf, cells, |cells| - 1, |cells|)
  {
    hide Repr, Blank, Clear, AllLegal, Half, Fill, Fillable, UsedBy, CellPtr, RecordAt, RecordStands, KindKept, State,
      Legal, Compatible;
    Sizes(cfg, s, Blank(cfg, leaf));
    FillableExactly(cfg, s, leaf, cells);
    if Fillable(cfg.acc, s, cells) {
      HalfHeader(cfg, s, leaf, cells, link);
      var half, nd := Half(cfg.acc, s, leaf, cells, link), HalfNode(cfg.acc, leaf, cells, link);
      forall i | 0 <= i < |cells|
        ensures HEADER + SLOT * i + SLOT <= |half|
        ensures CellPtr(half, i) == Offset(cfg, leaf, cells, i) <==> SlotKept(cfg, leaf, cells, i, |cells|)
        ensures RecordAt(cfg.acc, leaf, half, Offset(cfg, leaf, cells, i), cells[i])
            <==> RecordStands(cfg, leaf, cells, i, link)
        ensures ReadsAt(cfg.acc, half, nd, i) <==>
          if SlotKept(cfg, leaf, cells, i, |cells|) then RecordStands(cfg, leaf, cells, i, link)
          else ReadsAt(cfg.acc, half, nd, i)
      {
        PlaceExactly(cfg, s, leaf, cells, link, i);
      }
    }
  }

  // ---------------------------------------------------------------- an earlier cell in the header

  /** The free pointer after a cell with the bytes e has been appended at top. */
  function NextFree(top: nat, e: Page): nat
    requires |e| >= 10
  {
    if OFF_CONTENT + 2 <= top then top
    else if top == OFF_CONTENT + 1 then top + 256 * e[0] as nat
    else e[OFF_CONTENT - top] as nat + 256 * e[OFF_CONTENT + 1 - top] as nat
  }

  /** After AppendCell the free pointer is the offset of the cell, or what the cell has put in its place. */
  lemma FreePointerAfter(acc: Acc, s: Page, c: Cell)
    requires Appendable(acc, s, c)
    ensures var t, e, top := Appended(acc, s, c), Enc(acc, IsLeaf(s), c), CellContent(s) - SizeOf(acc, IsLeaf(s), c);
      && |t| == |s| && |e| >= 10 && CellContent(t) == NextFree(top, e)
      && NumCells(t) == (NumCells(s) + 1) % 0x1_0000 && (top > 0 ==> IsLeaf(t) == IsLeaf(s))
  {
    hide Over, Enc, ToLE, SizeOf, Appended, FromLE;
    var s1, s2, s3 := Writes(acc, s, c);
    var t, e, top := Appended(acc, s, c), Enc(acc, IsLeaf(s), c), CellContent(s) - SizeOf(acc, IsLeaf(s), c);
    KindAfter(acc, s, c);
    CountWraps(t, NumCells(s) + 1);
    T.TwoBytes(top);
    assert t[3..5] == s3[3..5] == s2[3..5];
    TwoBytesBack(t[3..5]);
    assert s1[3..5] == [top % 256, top / 256 % 256];
    FreeBytes(s1, s2, top, e);
  }

  /** The two bytes of the free pointer, when the cell is written over them or not. */
  lemma FreeBytes(s1: Page, s2: Page, top: nat, e: Page)
    requires |s1| == |s2| >= HEADER && |e| >= 10 && top + |e| <= |s1| < 0x1_0000 && Wrote(s1, s2, top, top + |e|)
    requires s2[top..top + |e|] == e && s1[3..5] == [top % 256, top / 256 % 256]
    ensures s2[3..5][0] as nat + 256 * s2[3..5][1] as nat == NextFree(top, e)
  {
    assert s2[3..5] == [s2[3], s2[4]] && s1[3] == s1[3..5][0];
    if 5 <= top {
      assert s2[3..5] == s1[3..5];
    } else if top == 4 {
      assert s2[3..4] == s1[3..4] && s2[3] == s2[3..4][0] && s1[3] == s1[3..4][0];
      assert e[0] == s2[top..top + |e|][0];
    } else {
      assert e[3 - top] == s2[top..top + |e|][3 - top] && e[4 - top] == s2[top..top + |e|][4 - top];
    }
  }

  lemma CountWraps(t: Page, x: nat)
    requires |t| >= HEADER && t[OFF_NUM_CELLS..OFF_NUM_CELLS + 2] == ToLE(2, x)
    ensures NumCells(t) == x % 0x1_0000
  {
    T.TwoBytes(x);
    TwoBytesBack(t[OFF_NUM_CELLS..OFF_NUM_CELLS + 2]);
  }

  lemma TwoBytesBack(b: Page)
    requires |b| == 2
    ensures FromLE(b) == b[0] as nat + 256 * b[1] as nat
  {
    assert FromLE(b[1..]) == b[1] as nat + 256 * FromLE(b[1..][1..]);
    assert b[1..][1..] == [];
  }

  /**
   Cell n is not the last and begins in the header. The next one is placed from the free pointer as cell n has left it,
   and the code panics when it does not fit below that, or when that is beyond the page. While the free pointer is
   intact, only a cell of at most twelve bytes fits.
   */
  lemma NextInHeader(cfg: Cfg, s: Page, leaf: bool, cells: seq<Cell>, n: nat)
    requires Repr(cfg, s, Blank(cfg, leaf)) && AllLegal(cfg.acc, leaf, cells) && n + 1 < |cells|
    requires Clear(cfg, leaf, cells, n) && HEADER + SLOT * (n + 2) <= cfg.pageSize
    requires cfg.pageSize - HEADER < UsedBy(cfg, leaf, cells[..n + 1]) < cfg.pageSize
    ensures Fillable(cfg.acc, s, cells[..n + 1])
    ensures var free, e := NextFree(Offset(cfg, leaf, cells, n), Enc(cfg.acc, leaf, cells[n])), cells[n + 1];
      && (Fillable(cfg.acc, s, cells[..n + 2]) <==> SizeOf(cfg.acc, leaf, e) <= free <= cfg.pageSize)
      && (Fillable(cfg.acc, s, cells[..n + 2]) ==>
            CellPtr(Fill(cfg.acc, s, cells[..n + 2]), n + 1) == free - SizeOf(cfg.acc, leaf, e))
      && (OFF_CONTENT + 2 <= Offset(cfg, leaf, cells, n) && SizeOf(cfg.acc, leaf, e) > 12 ==>
            !Fillable(cfg.acc, s, cells))
  {
    hide Repr, Blank, Clear, AllLegal, Fill, HeaderState, SlotState, RecordState, Appended, UsedBy, KindKept, State,
      Fillable, SizeOf, Enc, NextFree, CellPtr, CellContent, NumCells, IsLeaf;
    Sizes(cfg, s, Blank(cfg, leaf));
    Filling(cfg, s, leaf, cells, n);
    FillStep(cfg.acc, s, cells, n);
    InHeader(cfg, leaf, cells, n, Fill(cfg.acc, s, cells[..n]));
    FillStep(cfg.acc, s, cells, n + 1);
    var t := Fill(cfg.acc, s, cells[..n + 1]);
    NextAppendable(cfg, leaf, cells, n, t);
    if Fillable(cfg.acc, s, cells[..n + 2]) {
      NewSlotAfter(cfg.acc, t, cells[n + 1]);
    } else {
      NotFillable(cfg.acc, s, cells, n + 2);
    }
    IntactFree(cfg, leaf, cells, n);
  }

  /** The page after cell n. */
  lemma InHeader(cfg: Cfg, leaf: bool, cells: seq<Cell>, n: nat, s: Page)
    requires AllLegal(cfg.acc, leaf, cells) && n + 1 < |cells| && HeaderState(cfg, leaf, cells, n, s)
    requires Clear(cfg, leaf, cells, n) && HEADER + SLOT * (n + 2) <= cfg.pageSize
    requires cfg.pageSize - HEADER < UsedBy(cfg, leaf, cells[..n + 1]) < cfg.pageSize
    ensures Appendable(cfg.acc, s, cells[n]) && |Enc(cfg.acc, leaf, cells[n])| >= 10
    ensures var t := Appended(cfg.acc, s, cells[n]);
      && |t| == cfg.pageSize && IsLeaf(t) == leaf && NumCells(t) == n + 1
      && CellContent(t) == NextFree(Offset(cfg, leaf, cells, n), Enc(cfg.acc, leaf, cells[n]))
  {
    hide UsedBy, Enc, NextFree, Appended, Appendable, FromLE, Legal;
    assert Before(cfg, leaf, cells, n, s);
    Appending(cfg, leaf, cells, n, s);
    FreePointerAfter(cfg.acc, s, cells[n]);
  }

  lemma IntactFree(cfg: Cfg, leaf: bool, cells: seq<Cell>, n: nat)
    requires n < |cells| && AllLegal(cfg.acc, leaf, cells)
    requires cfg.pageSize - HEADER < UsedBy(cfg, leaf, cells[..n + 1]) < cfg.pageSize
    ensures |Enc(cfg.acc, leaf, cells[n])| >= 10 && 0 < Offset(cfg, leaf, cells, n) < HEADER
    ensures OFF_CONTENT + 2 <= Offset(cfg, leaf, cells, n) ==>
      NextFree(Offset(cfg, leaf, cells, n), Enc(cfg.acc, leaf, cells[n])) <= 12
  {
    hide UsedBy, Enc;
    SizeTen(cfg.acc, leaf, cells[n]);
  }

  lemma NextAppendable(cfg: Cfg, leaf: bool, cells: seq<Cell>, n: nat, t: Page)
    requires n + 1 < |cells| && AllLegal(cfg.acc, leaf, cells) && |t| == cfg.pageSize < 0x1_0000
    requires HEADER + SLOT * (n + 2) <= cfg.pageSize && IsLeaf(t) == leaf && NumCells(t) == n + 1
    ensures Appendable(cfg.acc, t, cells[n + 1]) <==>
      SizeOf(cfg.acc, leaf, cells[n + 1]) <= CellContent(t) <= cfg.pageSize
  {
    hide FromLE, SizeOf;
  }

  // ---------------------------------------------------------------- halves over by at most two bytes, if at all

  /** By how many bytes the cells and slots of a half exceed the page. */
  function Excess(cfg: Cfg, leaf: bool, cells: seq<Cell>): int {
    HEADER + SLOT * |cells| + UsedBy(cfg, leaf, cells) - cfg.pageSize
  }

  /** It fits, or its last cell starts with the bytes of its slot, or that is a child pointer no one reads. */
  predicate HalfRight(cfg: Cfg, leaf: bool, cells: seq<Cell>)
    requires Excess(cfg, leaf, cells) <= 2 && (cells != [] ==> Legal(cfg.acc, leaf, cells[|cells| - 1]))
  {
    || Excess(cfg, leaf, cells) <= 0
    || (cfg.acc.BTreeAcc? && leaf)
    || (cells != [] &&
        T.Harmless(cfg.acc, leaf, cells[|cells| - 1], 2 - Excess(cfg, leaf, cells), Filled(cfg, leaf, cells)))
  }

  /** Slot and cell i, and any later slot and cell: they overlap in a last cell only. */
  lemma Places(cfg: Cfg, leaf: bool, cells: seq<Cell>, i: nat, j: nat)
    requires Excess(cfg, leaf, cells) <= 2 && i <= j < |cells|
    ensures UsedBy(cfg, leaf, cells) <= cfg.pageSize && HEADER <= Offset(cfg, leaf, cells, i)
    ensures i < j ==> HEADER + SLOT * i + SLOT <= Offset(cfg, leaf, cells, j)
    ensures j < |cells| - 1 || i < j || Excess(cfg, leaf, cells) <= 0 ==>
      HEADER + SLOT * j + SLOT <= Offset(cfg, leaf, cells, i)
  {
    hide Filled, UsedBy;
    var n := |cells|;
    assert cells[..n] == cells;
    UsedUpTo(cfg, leaf, cells, 0, n);
    UsedUpTo(cfg, leaf, cells, i + 1, n);
    UsedUpTo(cfg, leaf, cells, j + 1, n);
    FilledIs(cfg, leaf, cells[..i + 1]);
    FilledIs(cfg, leaf, cells[..j + 1]);
  }

  lemma SlotsApart(cfg: Cfg, leaf: bool, cells: seq<Cell>, i: nat)
    requires Excess(cfg, leaf, cells) <= 2 && AllLegal(cfg.acc, leaf, cells) && i < |cells|
    ensures SlotKept(cfg, leaf, cells, i, |cells|)
  {
    hide Compatible, ToLE, Filled, UsedBy, Enc, Legal;
    forall j | i < j < |cells|
      ensures Compatible(HEADER + SLOT * i, ToLE(2, Offset(cfg, leaf, cells, i)),
                         Offset(cfg, leaf, cells, j), Enc(cfg.acc, leaf, cells[j]))
    {
      Places(cfg, leaf, cells, i, j);
      T.NoOverlap(HEADER + SLOT * i, ToLE(2, Offset(cfg, leaf, cells, i)),
                  Offset(cfg, leaf, cells, j), Enc(cfg.acc, leaf, cells[j]));
    }
  }

  lemma RecordsApart(cfg: Cfg, leaf: bool, cells: seq<Cell>, i: nat, link: nat)
    requires Excess(cfg, leaf, cells) <= 2 && AllLegal(cfg.acc, leaf, cells) && i < |cells|
    ensures RecordStands(cfg, leaf, cells, i, link) <==>
      Compatible(Offset(cfg, leaf, cells, i) + Unread(cfg.acc, leaf), Core(cfg.acc, leaf, cells[i]),
                 HEADER + SLOT * (|cells| - 1), ToLE(2, Offset(cfg, leaf, cells, |cells| - 1)))
    ensures i < |cells| - 1 || Excess(cfg, leaf, cells) <= 0 ==> RecordStands(cfg, leaf, cells, i, link)
  {
    hide Compatible, Core, ToLE, Filled, UsedBy, Enc, Legal, Excess;
    var n := |cells|;
    var a, core := Offset(cfg, leaf, cells, i) + Unread(cfg.acc, leaf), Core(cfg.acc, leaf, cells[i]);
    forall j | i <= j < n
      ensures j < n - 1 || i < n - 1 || Excess(cfg, leaf, cells) <= 0 ==>
        Compatible(a, core, HEADER + SLOT * j, ToLE(2, Offset(cfg, leaf, cells, j)))
    {
      Places(cfg, leaf, cells, i, j);
      if j < n - 1 || i < n - 1 || Excess(cfg, leaf, cells) <= 0 {
        T.NoOverlap(a, core, HEADER + SLOT * j, ToLE(2, Offset(cfg, leaf, cells, j)));
      }
    }
    Places(cfg, leaf, cells, i, i);
    T.NoOverlap(a, core, OFF_NUM_CELLS, ToLE(2, n));
    T.NoOverlap(a, core, if leaf then OFF_NEXT_LEAF else OFF_RIGHTMOST, ToLE(4, link));
  }

  lemma FilledIs(cfg: Cfg, leaf: bool, cells: seq<Cell>)
    requires UsedBy(cfg, leaf, cells) <= cfg.pageSize
    ensures Filled(cfg, leaf, cells) == cfg.pageSize - UsedBy(cfg, leaf, cells)
  {
  }

  /**
   A half that exceeds its page by at most two bytes reads right exactly when the last cell starts with the bytes of
   its slot, or in a leaf of a B-tree, where they fall on the unread child pointer; and one that fits always does.
   */
  lemma HalfReadsExactly(cfg: Cfg, s: Page, leaf: bool, cells: seq<Cell>, link: nat)
    requires Repr(cfg, s, Blank(cfg, leaf)) && link < 0x1_0000_0000
    requires Excess(cfg, leaf, cells) <= 2 && AllLegal(cfg.acc, leaf, cells)
    ensures |s| >= HEADER && cfg.pageSize >= HEADER && Fillable(cfg.acc, s, cells)
    ensures Reads(cfg, Half(cfg.acc, s, leaf, cells, link), HalfNode(cfg.acc, leaf, cells, link))
       <==> HalfRight(cfg, leaf, cells)
  {
    hide Repr, Blank, Half, Fill, Fillable, UsedBy, Reads, ReadsAt, RecordStands, SlotKept, Core, ToLE, Filled,
      Compatible, T.Harmless, Legal, CellPtr, RecordAt;
    Sizes(cfg, s, Blank(cfg, leaf));
    if cells == [] {
      EmptyHalf(cfg, s, leaf, link);
    } else {
      var n := |cells|;
      NearlyFits(cfg, leaf, cells);
      HalfExactly(cfg, s, leaf, cells, link);
      forall i | 0 <= i < n
        ensures SlotKept(cfg, leaf, cells, i, n)
        ensures i < n - 1 || Excess(cfg, leaf, cells) <= 0 ==> RecordStands(cfg, leaf, cells, i, link)
      {
        SlotsApart(cfg, leaf, cells, i);
        RecordsApart(cfg, leaf, cells, i, link);
      }
      LastInNumbers(cfg, leaf, cells, link);
    }
  }

  lemma EmptyHalf(cfg: Cfg, s: Page, leaf: bool, link: nat)
    requires Repr(cfg, s, Blank(cfg, leaf)) && link < 0x1_0000_0000 && |s| >= HEADER
    ensures Fillable(cfg.acc, s, []) && Reads(cfg, Half(cfg.acc, s, leaf, [], link), HalfNode(cfg.acc, leaf, [], link))
    ensures Excess(cfg, leaf, []) <= 0
  {
    Sizes(cfg, s, Blank(cfg, leaf));
    HalfHeader(cfg, s, leaf, [], link);
  }

  lemma NearlyFits(cfg: Cfg, leaf: bool, cells: seq<Cell>)
    requires Excess(cfg, leaf, cells) <= 2 && AllLegal(cfg.acc, leaf, cells) && cells != [] && cfg.pageSize < 0x1_0000
    ensures OneOver(cfg, leaf, cells) && UsedBy(cfg, leaf, cells) <= cfg.pageSize && HEADER + SLOT <= cfg.pageSize
    ensures KindKept(cfg, leaf, cells, |cells| - 1)
  {
    hide Legal;
    var n := |cells|;
    assert cells[..n] == cells;
    UsedUpTo(cfg, leaf, cells, 0, n);
    UsedUpTo(cfg, leaf, cells, n - 1, n);
  }

  lemma LastInNumbers(cfg: Cfg, leaf: bool, cells: seq<Cell>, link: nat)
    requires Excess(cfg, leaf, cells) <= 2 && AllLegal(cfg.acc, leaf, cells) && cells != []
    requires HEADER <= cfg.pageSize < 0x1_0000
    ensures RecordStands(cfg, leaf, cells, |cells| - 1, link) <==> HalfRight(cfg, leaf, cells)
  {
    hide Compatible, Core, ToLE, UsedBy, Enc, Legal, RecordStands, T.Harmless, SlotKept;
    var n, c := |cells|, cells[|cells| - 1];
    assert cells[..n] == cells;
    RecordsApart(cfg, leaf, cells, n - 1, link);
    Places(cfg, leaf, cells, n - 1, n - 1);
    if Excess(cfg, leaf, cells) > 0 {
      UsedStep(cfg, leaf, cells, n - 1);
      var nd := Node(leaf, cells[..n - 1], 0, INVALID_PAGE, Filled(cfg, leaf, cells[..n - 1]));
      T.SlotAgreesInNumbers(cfg, nd, c);
    }
  }

  /**
   When both halves are too large by at most two bytes, if at all, the two pages read as the two halves exactly when
   each half that is too large ends in a harmless cell; this holds for leaves and for internal nodes.
   */
  lemma SplitReadsExactly(cfg: Cfg, s: Page, s': Page, leaf: bool, all: seq<Cell>, rightmost: nat, next: nat,
      newId: nat)
    requires Repr(cfg, s, Blank(cfg, leaf)) && Repr(cfg, s', Blank(cfg, leaf)) && all != []
    requires rightmost < 0x1_0000_0000 && next < 0x1_0000_0000 && newId < 0x1_0000_0000
    requires forall i | 0 <= i < |all| :: Legal(cfg.acc, leaf, all[i])
    requires Excess(cfg, leaf, all[..|all| / 2]) <= 2 && Excess(cfg, leaf, RightCells(cfg.acc, leaf, all)) <= 2
    ensures |s| >= HEADER && |s'| >= HEADER && cfg.pageSize >= HEADER
    ensures Fillable(cfg.acc, s, all[..|all| / 2]) && Fillable(cfg.acc, s', RightCells(cfg.acc, leaf, all))
    ensures var l := Half(cfg.acc, s, leaf, all[..|all| / 2], if leaf then newId else all[|all| / 2].left);
      var r := Half(cfg.acc, s', leaf, RightCells(cfg.acc, leaf, all), if leaf then next else rightmost);
      && (Reads(cfg, l, LeftHalf(cfg, leaf, all, newId)) <==> HalfRight(cfg, leaf, all[..|all| / 2]))
      && (Reads(cfg, r, RightHalf(cfg, leaf, all, rightmost, next)) <==>
        HalfRight(cfg, leaf, RightCells(cfg.acc, leaf, all)))
  {
    hide Repr, Over, ToLE, FromLE, Fill, Fillable, Reads, Half, UsedBy, HalfRight, Legal;
    var mid, right := |all| / 2, RightCells(cfg.acc, leaf, all);
    var linkL, linkR := if leaf then newId else all[mid].left, if leaf then next else rightmost;
    LegalLeft(cfg.acc, leaf, all[mid]);
    HalfReadsExactly(cfg, s, leaf, all[..mid], linkL);
    HalfReadsExactly(cfg, s', leaf, right, linkR);
    ContentUnread(cfg, Half(cfg.acc, s, leaf, all[..mid], linkL), LeftHalf(cfg, leaf, all, newId), 0);
    ContentUnread(cfg, Half(cfg.acc, s', leaf, right, linkR), RightHalf(cfg, leaf, all, rightmost, next), 0);
  }

  lemma LegalLeft(acc: Acc, leaf: bool, c: Cell)
    requires Legal(acc, leaf, c)
    ensures c.left < 0x1_0000_0000
  {
  }
}
