/**
 A case the code does not handle: the root splits, and the promoted cell does not fit the new root page.

 In a B-tree a record that fits no page moves up as the median of a leaf, both halves fit, and Insert appends it to an
 empty page without a room test. The cell then begins inside its slot or inside the header, or before the page.
 */
module RootPage {
  import opened Bytes
  import opened Records
  import opened TreeModel
  import opened Layout
  import opened PageOps
  import opened ShortPage

  /** A new root before its cell is appended. */
  function Bare(cfg: Cfg, right: nat): Node {
    Node(false, [], right, INVALID_PAGE, cfg.pageSize)
  }

  /** The page part of a root split; ok is false when the cell begins before the page and the call panics. */
  method ForceRoot(cfg: Cfg, p: array<byte>, c: Cell, right: nat) returns (ok: bool, ghost s: Page)
    requires HEADER + SLOT <= p.Length == cfg.pageSize < 0x1_0000 && right < 0x1_0000_0000 && Legal(cfg.acc, false, c)
    modifies p
    ensures Repr(cfg, s, Bare(cfg, right)) && (ok <==> SizeOf(cfg.acc, false, c) <= cfg.pageSize)
    ensures ok ==> Appendable(cfg.acc, s, c) && p[..] == Appended(cfg.acc, s, c)
  {
    hide Body, Appended, SizeOf, Legal;
    InitPage(cfg, p, false);
    PutRightmost(cfg, p, right, Node(false, [], 0, INVALID_PAGE, cfg.pageSize));
    s := p[..];
    BareFacts(cfg, s, c, right);
    ok := Appendable(cfg.acc, p[..], c);
    if ok {
      ForceAppend(cfg.acc, p, c);
    }
  }

  lemma BareFacts(cfg: Cfg, s: Page, c: Cell, right: nat)
    requires Repr(cfg, s, Bare(cfg, right)) && Legal(cfg.acc, false, c) && HEADER + SLOT <= cfg.pageSize
    ensures Appendable(cfg.acc, s, c) <==> SizeOf(cfg.acc, false, c) <= cfg.pageSize
  {
    hide CellOk, Apart;
    BodySize(cfg, s, Bare(cfg, right));
  }

  /**
   A new root reads right exactly when its cell stays on the page and agrees, byte by byte, with all that it shares
   with the slot, the count, the page type and the rightmost pointer.
   */
  lemma RootReadsExactly(cfg: Cfg, s: Page, c: Cell, right: nat)
    requires Repr(cfg, s, Bare(cfg, right)) && Legal(cfg.acc, false, c) && HEADER + SLOT <= cfg.pageSize
    ensures var top := cfg.pageSize - SizeOf(cfg.acc, false, c);
      && (top < 0 <==> !Appendable(cfg.acc, s, c))
      && (top >= 0 ==> (Reads(cfg, Appended(cfg.acc, s, c), Bare(cfg, right).(cells := [c])) <==>
                          Agreeing(cfg.acc, Bare(cfg, right), c, top)))
      && (top >= HEADER + SLOT ==> Agreeing(cfg.acc, Bare(cfg, right), c, top))
  {
    hide Repr, Appended, Agreeing, Reads, SizeOf, Legal;
    BareFacts(cfg, s, c, right);
    if SizeOf(cfg.acc, false, c) <= cfg.pageSize {
      AppendReadsExactly(cfg, s, Bare(cfg, right), c);
      assert [] + [c] == [c];
    }
    if SizeOf(cfg.acc, false, c) <= cfg.pageSize - HEADER - SLOT {
      FarApart(cfg, c, right);
    }
  }

  lemma FarApart(cfg: Cfg, c: Cell, right: nat)
    requires Legal(cfg.acc, false, c) && SizeOf(cfg.acc, false, c) <= cfg.pageSize - HEADER - SLOT
    ensures Agreeing(cfg.acc, Bare(cfg, right), c, cfg.pageSize - SizeOf(cfg.acc, false, c))
  {
    hide ToLE, Enc;
  }
}
