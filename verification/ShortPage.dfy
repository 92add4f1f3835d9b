/**
 Appending a cell to a page whether or not there is room for it: the bytes that the code leaves, and when they read
 right.

 AppendCell allocates, writes the cell, its slot and the count, in this order and without a room test. Where these
 writes overlap, the later one wins. A page reads right exactly when the bytes agree wherever two of them overlap and
 both are read later.
 */
module ShortPage {
  import opened Bytes
  import opened Records
  import opened TreeModel
  import opened Layout
  import opened PageOps

  // ---------------------------------------------------------------- bytes over bytes

  /** s with the bytes b written at offset at. */
  function Over(s: Page, at: nat, b: Page): (t: Page)
    requires at + |b| <= |s|
    ensures |t| == |s|
  {
    s[..at] + b + s[at + |b|..]
  }

  lemma OverWrote(s: Page, at: nat, b: Page)
    requires at + |b| <= |s|
    ensures Wrote(s, Over(s, at, b), at, at + |b|) && Over(s, at, b)[at..at + |b|] == b
  {
    var t := Over(s, at, b);
    assert forall k | 0 <= k < |s| :: t[k] == if at <= k < at + |b| then b[k - at] else s[k];
    WroteFromBytes(s, t, at, at + |b|);
  }

  lemma OverUnique(s: Page, t: Page, at: nat, b: Page)
    requires at + |b| <= |s| && Wrote(s, t, at, at + |b|) && t[at..at + |b|] == b
    ensures t == Over(s, at, b)
  {
    assert t[0..at] == s[0..at] && t[at + |b|..|s|] == s[at + |b|..|s|];
    assert t == t[0..at] + t[at..at + |b|] + t[at + |b|..|s|];
  }

  /** The bytes x at offset a and the bytes y at offset b agree where they overlap. */
  predicate Compatible(a: nat, x: Page, b: nat, y: Page) {
    forall k | 0 <= k < |x| && 0 <= a + k - b < |y| :: x[k] == y[a + k - b]
  }

  /** After y has been written at b, the bytes at a still read as x exactly when the two are compatible. */
  lemma OverReads(s: Page, a: nat, x: Page, b: nat, y: Page)
    requires a + |x| <= |s| && b + |y| <= |s|
    ensures s[a..a + |x|] == x ==> (Over(s, b, y)[a..a + |x|] == x <==> Compatible(a, x, b, y))
  {
    var t := Over(s, b, y);
    assert forall k | 0 <= k < |s| :: t[k] == if b <= k < b + |y| then y[k - b] else s[k];
    var was, now := s[a..a + |x|], t[a..a + |x|];
    forall k | 0 <= k < |x|
      ensures now[k] == if b <= a + k < b + |y| then y[a + k - b] else was[k]
    {
    }
  }

  /** The same for two writes that do not overlap each other. */
  lemma OverReadsTwice(s: Page, a: nat, x: Page, b: nat, y: Page, c: nat, z: Page)
    requires a + |x| <= |s| && b + |y| <= |s| && c + |z| <= |s| && (b + |y| <= c || c + |z| <= b)
    ensures s[a..a + |x|] == x ==>
      (Over(Over(s, b, y), c, z)[a..a + |x|] == x <==> Compatible(a, x, b, y) && Compatible(a, x, c, z))
  {
    var t := Over(Over(s, b, y), c, z);
    assert forall k | 0 <= k < |s| ::
        t[k] == if c <= k < c + |z| then z[k - c] else if b <= k < b + |y| then y[k - b] else s[k];
    var was, now := s[a..a + |x|], t[a..a + |x|];
    forall k | 0 <= k < |x|
      ensures now[k] == if c <= a + k < c + |z| then z[a + k - c]
                        else if b <= a + k < b + |y| then y[a + k - b] else was[k]
    {
    }
  }

  // ---------------------------------------------------------------- cells as bytes

  /** The bytes of a cell. */
  function Enc(acc: Acc, leaf: bool, c: Cell): (b: Page)
    requires Legal(acc, leaf, c)
    ensures |b| == SizeOf(acc, leaf, c)
  {
    if acc.BTreeAcc? then ToLE(4, c.left) + ToLE(8, ToU64(c.key)) + ToLE(2, |c.val|) + c.val
    else if leaf then ToLE(8, ToU64(c.key)) + ToLE(2, |c.val|) + c.val
    else ToLE(4, c.left) + ToLE(8, ToU64(c.key))
  }

  lemma Field(b: Page, n: nat, x: nat)
    requires |b| == n && x < Pow256(n)
    ensures FromLE(b) == x <==> b == ToLE(n, x)
  {
    FromToLE(n, x);
    ToFromLE(b);
  }

  lemma InFour(s: Page, off: nat, a: Page, b: Page, c: Page, d: Page)
    requires off + |a| + |b| + |c| + |d| <= |s|
    ensures var i, j, k, l := off + |a|, off + |a| + |b|, off + |a| + |b| + |c|, off + |a| + |b| + |c| + |d|;
      s[off..l] == a + b + c + d <==> s[off..i] == a && s[i..j] == b && s[j..k] == c && s[k..l] == d
  {
    var i, j, k, l := off + |a|, off + |a| + |b|, off + |a| + |b| + |c|, off + |a| + |b| + |c| + |d|;
    var all, parts := s[off..l], a + b + c + d;
    assert all[..|a|] == s[off..i] && all[|a|..|a| + |b|] == s[i..j];
    assert all[|a| + |b|..|a| + |b| + |c|] == s[j..k] && all[|a| + |b| + |c|..] == s[k..l];
    assert parts == a + (b + (c + d)) && parts == (a + b) + (c + d) && parts == (a + b + c) + d;
    assert parts[..|a|] == a && parts[|a|..|a| + |b|] == b;
    assert parts[|a| + |b|..|a| + |b| + |c|] == c && parts[|a| + |b| + |c|..] == d;
    assert all == all[..|a|] + all[|a|..|a| + |b|] + all[|a| + |b|..|a| + |b| + |c|] + all[|a| + |b| + |c|..];
  }

  /** A cell stands at an offset exactly when its bytes do. */
  lemma CellBytes(acc: Acc, leaf: bool, s: Page, off: nat, c: Cell)
    requires Legal(acc, leaf, c) && off + SizeOf(acc, leaf, c) <= |s|
    ensures CellAt(acc, leaf, s, off, c) <==> s[off..off + SizeOf(acc, leaf, c)] == Enc(acc, leaf, c)
  {
    hide FromLE, ToLE, Pow256;
    Widths();
    var l, k, n := ToLE(4, c.left), ToLE(8, ToU64(c.key)), ToLE(2, |c.val|);
    if acc.BTreeAcc? {
      Field(s[off..off + 4], 4, c.left);
      Field(s[off + 4..off + 12], 8, ToU64(c.key));
      Field(s[off + 12..off + 14], 2, |c.val|);
      InFour(s, off, l, k, n, c.val);
    } else if leaf {
      Field(s[off..off + 8], 8, ToU64(c.key));
      Field(s[off + 8..off + 10], 2, |c.val|);
      InFour(s, off, [], k, n, c.val);
      assert [] + k + n + c.val == k + n + c.val;
    } else {
      Field(s[off..off + 4], 4, c.left);
      Field(s[off + 4..off + 12], 8, ToU64(c.key));
      InFour(s, off, l, k, [], []);
      assert l + k + [] + [] == l + k;
    }
  }

  // ---------------------------------------------------------------- what is read

  /** The bytes in front of a record that nothing reads: the child pointer in a leaf of a B-tree. */
  function Unread(acc: Acc, leaf: bool): nat {
    if acc.BTreeAcc? && leaf then 4 else 0
  }

  /** The part of a cell that is read. */
  function Core(acc: Acc, leaf: bool, c: Cell): (b: Page)
    requires Legal(acc, leaf, c)
  {
    Enc(acc, leaf, c)[Unread(acc, leaf)..]
  }

  /** Reading at an offset stays on the page and gives the cell, up to an unread child pointer. */
  ghost predicate RecordAt(acc: Acc, leaf: bool, s: Page, off: nat, c: Cell) {
    && off + SizeOf(acc, leaf, c) <= |s|
    && CellAt(acc, leaf, s, off, if Unread(acc, leaf) == 0 then c else c.(left := U32(s, off)))
  }

  lemma RecordBytes(acc: Acc, leaf: bool, s: Page, off: nat, c: Cell)
    requires Legal(acc, leaf, c) && off + SizeOf(acc, leaf, c) <= |s|
    ensures var u := Unread(acc, leaf);
      RecordAt(acc, leaf, s, off, c) <==> s[off + u..off + u + |Core(acc, leaf, c)|] == Core(acc, leaf, c)
  {
    hide FromLE, ToLE, CellAt;
    var size := SizeOf(acc, leaf, c);
    if Unread(acc, leaf) == 0 {
      CellBytes(acc, leaf, s, off, c);
    } else {
      var here := c.(left := U32(s, off));
      U32Small(s, off);
      CellBytes(acc, leaf, s, off, here);
      var all := s[off..off + size];
      ToFromLE(s[off..off + 4]);
      assert all[..4] == s[off..off + 4] && all[4..] == s[off + 4..off + size];
      assert all == all[..4] + all[4..];
      var e, e' := Enc(acc, leaf, here), Enc(acc, leaf, c);
      assert e[..4] == ToLE(4, here.left) && e[4..] == e'[4..] && e == e[..4] + e[4..];
    }
  }

  lemma U32Small(s: Page, off: nat)
    requires off + 4 <= |s|
    ensures U32(s, off) < 0x1_0000_0000
  {
    Widths();
  }

  /** What lookups and scans read from a page is the node. */
  ghost predicate Reads(cfg: Cfg, s: Page, nd: Node) {
    && |s| == cfg.pageSize >= HEADER
    && IsLeaf(s) == nd.leaf && NumCells(s) == |nd.cells|
    && (!nd.leaf ==> Rightmost(s) == nd.rightmost)
    && (nd.leaf && cfg.acc.CopyUp() ==> NextLeaf(s) == nd.next)
    && forall i | 0 <= i < |nd.cells| :: ReadsAt(cfg.acc, s, nd, i)
  }

  ghost predicate ReadsAt(acc: Acc, s: Page, nd: Node, i: nat)
    requires i < |nd.cells|
  {
    HEADER + SLOT * i + SLOT <= |s| && RecordAt(acc, nd.leaf, s, CellPtr(s, i), nd.cells[i])
  }

  lemma ReprReads(cfg: Cfg, s: Page, nd: Node)
    requires Repr(cfg, s, nd)
    ensures Reads(cfg, s, nd)
  {
    forall i | 0 <= i < |nd.cells|
      ensures ReadsAt(cfg.acc, s, nd, i)
    {
      SlotInside(cfg, s, nd, i);
      CellReads(cfg.acc, nd.leaf, s, CellPtr(s, i), nd.cells[i]);
    }
  }

  lemma CellReads(acc: Acc, leaf: bool, s: Page, off: nat, c: Cell)
    requires CellAt(acc, leaf, s, off, c)
    ensures RecordAt(acc, leaf, s, off, c)
  {
  }

  // ---------------------------------------------------------------- AppendCell without a room test

  /** AppendCell goes through without an out-of-range access: the cell and its slot start on the page. */
  predicate Appendable(acc: Acc, s: Page, c: Cell) {
    && HEADER <= |s| < 0x1_0000 && Legal(acc, IsLeaf(s), c)
    && SizeOf(acc, IsLeaf(s), c) <= CellContent(s) <= |s| && HEADER + SLOT * NumCells(s) + SLOT <= |s|
  }

  /** The bytes of a page after AppendCell. */
  function Appended(acc: Acc, s: Page, c: Cell): (t: Page)
    requires Appendable(acc, s, c)
    ensures |t| == |s|
  {
    var n, top := NumCells(s), CellContent(s) - SizeOf(acc, IsLeaf(s), c);
    Over(Over(Over(Over(s, OFF_CONTENT, ToLE(2, top)), top, Enc(acc, IsLeaf(s), c)), HEADER + SLOT * n, ToLE(2, top)),
         OFF_NUM_CELLS, ToLE(2, n + 1))
  }

  lemma PutField(s: Page, t: Page, off: nat, n: nat, x: nat)
    requires off + n <= |s| && Wrote(s, t, off, off + n) && x < Pow256(n) && |t| == |s| && FromLE(t[off..off + n]) == x
    ensures t == Over(s, off, ToLE(n, x))
  {
    Field(t[off..off + n], n, x);
    OverUnique(s, t, off, ToLE(n, x));
  }

  /** AppendCell on any page. */
  method ForceAppend(acc: Acc, p: array<byte>, c: Cell)
    requires Appendable(acc, p[..], c)
    modifies p
    ensures p[..] == Appended(acc, old(p[..]), c)
  {
    hide FromLE, ToLE, CellAt, Wrote, Over, Enc;
    Widths();
    ghost var s := p[..];
    var n, leaf := NumCells(p[..]), IsLeaf(p[..]);
    var off := AllocCell(p, SizeOf(acc, leaf, c));
    ghost var s1 := p[..];
    PutField(s, s1, OFF_CONTENT, 2, off);
    WriteCell(acc, p, off, c, leaf);
    ghost var s2 := p[..];
    CellBytes(acc, leaf, s2, off, c);
    OverUnique(s1, s2, off, Enc(acc, leaf, c));
    SetCellPtr(p, n, off);
    ghost var s3 := p[..];
    PutField(s2, s3, HEADER + SLOT * n, 2, off);
    SetNumCells(p, n + 1);
    PutField(s3, p[..], OFF_NUM_CELLS, 2, n + 1);
  }

  /** The bytes of the slot and the count agree with those of the record at top where they overlap it. */
  predicate CoreKept(acc: Acc, nd: Node, c: Cell, top: nat)
    requires Legal(acc, nd.leaf, c)
  {
    var n, u := |nd.cells|, Unread(acc, nd.leaf);
    && Compatible(top + u, Core(acc, nd.leaf, c), HEADER + SLOT * n, ToLE(2, top))
    && Compatible(top + u, Core(acc, nd.leaf, c), OFF_NUM_CELLS, ToLE(2, n + 1))
  }

  /** Every byte that two writes of AppendCell share, and that is read later, is the same in both. */
  predicate Agreeing(acc: Acc, nd: Node, c: Cell, top: nat)
    requires Legal(acc, nd.leaf, c)
  {
    var e := Enc(acc, nd.leaf, c);
    && CoreKept(acc, nd, c, top)
    && (top == 0 ==> (e[0] == 1) == nd.leaf)
    && (!nd.leaf ==> Compatible(OFF_RIGHTMOST, ToLE(4, nd.rightmost), top, e))
    && (nd.leaf && acc.CopyUp() ==> Compatible(OFF_NEXT_LEAF, ToLE(4, nd.next), top, e))
  }

  /**
   A page after AppendCell reads as its node with the cell added exactly when the bytes agree, if the cell starts
   behind the old slots, as it does whenever at most two bytes are missing, or if there are no old cells.
   */
  lemma AppendReadsExactly(cfg: Cfg, s: Page, nd: Node, c: Cell)
    requires Repr(cfg, s, nd) && Legal(cfg.acc, nd.leaf, c) && Appendable(cfg.acc, s, c)
    requires nd.cells == [] || HEADER + SLOT * |nd.cells| + SizeOf(cfg.acc, nd.leaf, c) <= nd.content
    ensures var top := nd.content - SizeOf(cfg.acc, nd.leaf, c);
      && top >= 0
      && (Reads(cfg, Appended(cfg.acc, s, c), nd.(cells := nd.cells + [c])) <==> Agreeing(cfg.acc, nd, c, top))
  {
    hide CellAt, FromLE, ToLE, CellOk, Apart, Enc, Over, Core, RecordAt, Compatible, Agree, U16, U32, CoreKept;
    BodySize(cfg, s, nd);
    var acc, leaf, n, t := cfg.acc, nd.leaf, |nd.cells|, Appended(cfg.acc, s, c);
    var top := nd.content - SizeOf(acc, leaf, c);
    var nd' := nd.(cells := nd.cells + [c]);
    HeaderAfter(cfg, s, nd, c);
    NewCellAfter(cfg, s, nd, c);
    assert nd'.cells[n] == c;
    forall i | 0 <= i < n
      ensures ReadsAt(acc, t, nd', i)
    {
      OldCellAfter(cfg, s, nd, c, i);
      assert nd'.cells[i] == nd.cells[i];
    }
    assert ReadsAt(acc, t, nd', n) <==> RecordAt(acc, leaf, t, top, c);
  }

  /** The four writes, one by one. */
  lemma Writes(acc: Acc, s: Page, c: Cell) returns (s1: Page, s2: Page, s3: Page)
    requires Appendable(acc, s, c)
    ensures var n, size, top := NumCells(s), SizeOf(acc, IsLeaf(s), c), CellContent(s) - SizeOf(acc, IsLeaf(s), c);
      && s1 == Over(s, OFF_CONTENT, ToLE(2, top)) && s2 == Over(s1, top, Enc(acc, IsLeaf(s), c))
      && s3 == Over(s2, HEADER + SLOT * n, ToLE(2, top))
        && Appended(acc, s, c) == Over(s3, OFF_NUM_CELLS, ToLE(2, n + 1))
      && |s| == |s1| == |s2| == |s3|
      && Wrote(s, s1, OFF_CONTENT, OFF_CONTENT + 2) && s1[OFF_CONTENT..OFF_CONTENT + 2] == ToLE(2, top)
      && Wrote(s1, s2, top, top + size)
      && s2[top..top + size] == Enc(acc, IsLeaf(s), c)
      && Wrote(s2, s3, HEADER + SLOT * n, HEADER + SLOT * n + SLOT)
      && s3[HEADER + SLOT * n..HEADER + SLOT * n + SLOT] == ToLE(2, top)
      && Wrote(s3, Appended(acc, s, c), OFF_NUM_CELLS, OFF_NUM_CELLS + 2)
      && Appended(acc, s, c)[OFF_NUM_CELLS..OFF_NUM_CELLS + 2] == ToLE(2, n + 1)
  {
    hide Over, Wrote, ToLE, Enc, SizeOf;
    var n, top := NumCells(s), CellContent(s) - SizeOf(acc, IsLeaf(s), c);
    s1 := Over(s, OFF_CONTENT, ToLE(2, top));
    OverWrote(s, OFF_CONTENT, ToLE(2, top));
    s2 := Over(s1, top, Enc(acc, IsLeaf(s), c));
    OverWrote(s1, top, Enc(acc, IsLeaf(s), c));
    s3 := Over(s2, HEADER + SLOT * n, ToLE(2, top));
    OverWrote(s2, HEADER + SLOT * n, ToLE(2, top));
    OverWrote(s3, OFF_NUM_CELLS, ToLE(2, n + 1));
  }

  /** A header field other than count and free pointer survives unless the cell overwrites it with other bytes. */
  lemma FieldAfter(acc: Acc, s: Page, c: Cell, at: nat, x: Page)
    requires Appendable(acc, s, c) && at + |x| <= HEADER && (at + |x| <= OFF_NUM_CELLS || OFF_RIGHTMOST <= at)
    requires s[at..at + |x|] == x
    ensures Appended(acc, s, c)[at..at + |x|] == x
       <==> Compatible(at, x, CellContent(s) - SizeOf(acc, IsLeaf(s), c), Enc(acc, IsLeaf(s), c))
  {
    hide Over, Enc, ToLE, SizeOf, Appended, Compatible;
    var s1, s2, s3 := Writes(acc, s, c);
    var top, t := CellContent(s) - SizeOf(acc, IsLeaf(s), c), Appended(acc, s, c);
    assert s1[at..at + |x|] == x;
    OverReads(s1, at, x, top, Enc(acc, IsLeaf(s), c));
    assert t[at..at + |x|] == s3[at..at + |x|] == s2[at..at + |x|];
  }

  lemma HeaderAfter(cfg: Cfg, s: Page, nd: Node, c: Cell)
    requires Repr(cfg, s, nd) && Legal(cfg.acc, nd.leaf, c) && Appendable(cfg.acc, s, c)
    ensures var t, top, e := Appended(cfg.acc, s, c), nd.content - SizeOf(cfg.acc, nd.leaf, c),
      Enc(cfg.acc, nd.leaf, c);
      && top >= 0 && |t| == cfg.pageSize >= HEADER && NumCells(t) == |nd.cells| + 1
      && (IsLeaf(t) == nd.leaf <==> top == 0 ==> (e[0] == 1) == nd.leaf)
      && (Rightmost(t) == nd.rightmost <==> Compatible(OFF_RIGHTMOST, ToLE(4, nd.rightmost), top, e))
      && (NextLeaf(t) == nd.next <==> Compatible(OFF_NEXT_LEAF, ToLE(4, nd.next), top, e))
  {
    hide Over, Enc, ToLE, SizeOf, Appended, Compatible, CellOk, Apart, FromLE;
    BodySize(cfg, s, nd);
    Widths();
    var t := Appended(cfg.acc, s, c);
    var s1, s2, s3 := Writes(cfg.acc, s, c);
    Field(t[OFF_NUM_CELLS..OFF_NUM_CELLS + 2], 2, |nd.cells| + 1);
    LinkAfter(cfg.acc, s, c, OFF_RIGHTMOST, nd.rightmost);
    LinkAfter(cfg.acc, s, c, OFF_NEXT_LEAF, nd.next);
    KindAfter(cfg.acc, s, c);
  }

  lemma KindAfter(acc: Acc, s: Page, c: Cell)
    requires Appendable(acc, s, c)
    ensures var top, e := CellContent(s) - SizeOf(acc, IsLeaf(s), c), Enc(acc, IsLeaf(s), c);
      |e| >= 10 && Appended(acc, s, c)[0] == if top == 0 then e[0] else s[0]
  {
    hide Over, Enc, ToLE, Appended, FromLE;
    var s1, s2, s3 := Writes(acc, s, c);
    var t, e := Appended(acc, s, c), Enc(acc, IsLeaf(s), c);
    assert t[0] == t[0..1][0] && t[0..1] == s3[0..1] == s2[0..1] && s1[0..1] == s[0..1];
    if CellContent(s) == |e| {
      assert s2[0..|e|][0] == s2[0];
    } else {
      assert s2[0..1] == s1[0..1];
    }
  }

  lemma LinkAfter(acc: Acc, s: Page, c: Cell, at: nat, id: nat)
    requires Appendable(acc, s, c) && OFF_RIGHTMOST <= at <= OFF_NEXT_LEAF && U32(s, at) == id
    ensures U32(Appended(acc, s, c), at) == id
       <==> Compatible(at, ToLE(4, id), CellContent(s) - SizeOf(acc, IsLeaf(s), c), Enc(acc, IsLeaf(s), c))
  {
    hide Over, Enc, ToLE, SizeOf, Appended, Compatible, FromLE;
    U32Small(s, at);
    Widths();
    Field(s[at..at + 4], 4, id);
    Field(Appended(acc, s, c)[at..at + 4], 4, id);
    FieldAfter(acc, s, c, at, ToLE(4, id));
  }

  lemma NewCellAfter(cfg: Cfg, s: Page, nd: Node, c: Cell)
    requires Repr(cfg, s, nd) && Legal(cfg.acc, nd.leaf, c) && Appendable(cfg.acc, s, c)
    ensures var n, t, top := |nd.cells|, Appended(cfg.acc, s, c), nd.content - SizeOf(cfg.acc, nd.leaf, c);
      && top >= 0 && HEADER + SLOT * n + SLOT <= |t| && CellPtr(t, n) == top
      && (RecordAt(cfg.acc, nd.leaf, t, top, c) <==> CoreKept(cfg.acc, nd, c, top))
  {
    hide CellOk, Apart, CellAt, Appended, RecordAt, Enc, Core, ToLE, Compatible, SizeOf;
    BodySize(cfg, s, nd);
    NewSlotAfter(cfg.acc, s, c);
    NewRecordAfter(cfg.acc, s, c);
  }

  lemma NewSlotAfter(acc: Acc, s: Page, c: Cell)
    requires Appendable(acc, s, c)
    ensures CellPtr(Appended(acc, s, c), NumCells(s)) == CellContent(s) - SizeOf(acc, IsLeaf(s), c)
  {
    hide Over, Enc, ToLE, SizeOf, Appended;
    Widths();
    var s1, s2, s3 := Writes(acc, s, c);
    var t, at := Appended(acc, s, c), HEADER + SLOT * NumCells(s);
    assert t[at..at + SLOT] == s3[at..at + SLOT];
    Field(t[at..at + SLOT], 2, CellContent(s) - SizeOf(acc, IsLeaf(s), c));
  }

  lemma NewRecordAfter(acc: Acc, s: Page, c: Cell)
    requires Appendable(acc, s, c)
    ensures var leaf, n, top := IsLeaf(s), NumCells(s), CellContent(s) - SizeOf(acc, IsLeaf(s), c);
      RecordAt(acc, leaf, Appended(acc, s, c), top, c) <==>
        && Compatible(top + Unread(acc, leaf), Core(acc, leaf, c), HEADER + SLOT * n, ToLE(2, top))
        && Compatible(top + Unread(acc, leaf), Core(acc, leaf, c), OFF_NUM_CELLS, ToLE(2, n + 1))
  {
    hide Over, Enc, ToLE, SizeOf, Appended, Compatible, RecordAt, Core, CellAt, Wrote, FromLE;
    var leaf, n, top := IsLeaf(s), NumCells(s), CellContent(s) - SizeOf(acc, IsLeaf(s), c);
    var s1, s2, s3 := Writes(acc, s, c);
    RecordBytes(acc, leaf, Appended(acc, s, c), top, c);
    CoreInside(acc, leaf, s2, top, c);
    OverReadsTwice(s2, top + Unread(acc, leaf), Core(acc, leaf, c), HEADER + SLOT * n, ToLE(2, top), OFF_NUM_CELLS,
      ToLE(2, n + 1));
  }

  lemma CoreInside(acc: Acc, leaf: bool, s: Page, off: nat, c: Cell)
    requires Legal(acc, leaf, c) && off + SizeOf(acc, leaf, c) <= |s|
    requires s[off..off + SizeOf(acc, leaf, c)] == Enc(acc, leaf, c)
    ensures var u, core := Unread(acc, leaf), Core(acc, leaf, c);
      u + |core| == SizeOf(acc, leaf, c) && s[off + u..off + u + |core|] == core
  {
    hide Enc;
    var u, all := Unread(acc, leaf), s[off..off + SizeOf(acc, leaf, c)];
    assert all[u..] == s[off + u..off + SizeOf(acc, leaf, c)];
  }

  lemma OldCellAfter(cfg: Cfg, s: Page, nd: Node, c: Cell, i: nat)
    requires Repr(cfg, s, nd) && Legal(cfg.acc, nd.leaf, c) && Appendable(cfg.acc, s, c) && i < |nd.cells|
    requires HEADER + SLOT * (i + 1) <= nd.content - SizeOf(cfg.acc, nd.leaf, c)
    requires HEADER + SLOT * |nd.cells| + SLOT <= nd.content
    ensures ReadsAt(cfg.acc, Appended(cfg.acc, s, c), nd, i)
    ensures var t := Appended(cfg.acc, s, c);
      nd.content <= CellPtr(t, i) && CellPtr(t, i) + SizeOf(cfg.acc, nd.leaf, nd.cells[i]) <= |t|
  {
    hide Over, Enc, ToLE, SizeOf, Appended, Compatible, RecordAt, CellAt, CellOk, Apart, U16;
    BodySize(cfg, s, nd);
    var s1, s2, s3 := Writes(cfg.acc, s, c);
    var t, at, d, top := Appended(cfg.acc, s, c), CellPtr(s, i), nd.cells[i], nd.content - SizeOf(cfg.acc, nd.leaf, c);
    SlotInside(cfg, s, nd, i);
    CellFits(cfg.acc, nd.leaf, s, at, d);
    PtrKept(s, s1, OFF_CONTENT + 2, |s|, i);
    PtrKept(s1, s2, 0, top, i);
    PtrKept(s2, s3, 0, HEADER + SLOT * |nd.cells|, i);
    PtrKept(s3, t, OFF_NUM_CELLS + 2, |s|, i);
    CellKept(cfg.acc, nd.leaf, s, s1, OFF_CONTENT + 2, |s|, at, d);
    CellKept(cfg.acc, nd.leaf, s1, s2, nd.content, |s|, at, d);
    CellKept(cfg.acc, nd.leaf, s2, s3, HEADER + SLOT * |nd.cells| + SLOT, |s|, at, d);
    CellKept(cfg.acc, nd.leaf, s3, t, OFF_NUM_CELLS + 2, |s|, at, d);
    CellReads(cfg.acc, nd.leaf, t, at, d);
  }

  lemma CellFits(acc: Acc, leaf: bool, s: Page, off: nat, c: Cell)
    requires CellAt(acc, leaf, s, off, c)
    ensures off + SizeOf(acc, leaf, c) <= |s|
  {
  }

  lemma SlotValue(t: Page, i: nat, x: nat)
    requires HEADER + SLOT * i + SLOT <= |t| && (x < 0x1_0000 || x == CellPtr(t, i))
    ensures CellPtr(t, i) < 0x1_0000
    ensures CellPtr(t, i) == x <==> t[HEADER + SLOT * i..HEADER + SLOT * i + SLOT] == ToLE(2, x)
  {
    hide FromLE, ToLE;
    Widths();
    Field(t[HEADER + SLOT * i..HEADER + SLOT * i + SLOT], 2, x);
  }
}
