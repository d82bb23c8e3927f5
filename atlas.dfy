/** The rest of the atlas builder after the glyphs are collected: the
    packer's placements written back into the glyph table, where each glyph
    is drawn on the texture, and the rows of the font descriptor. The
    MaxRects packer is a parameter: all that is assumed of it is that every
    rectangle it returns carries the tag of one of the boxes it was given. */
module Atlas {
  import opened Failures
  import opened Glyphs

  /** A placed rectangle, as the packer returns it. */
  datatype Rect = Rect(x: int, y: int, width: int, height: int, tag: int)

  /** The packer: texture width and height, the boxes, and the rectangles
      it managed to place. */
  type Packer = (int, int, seq<RectSize>) -> seq<Rect>

  function TagsOf(boxes: seq<RectSize>): set<int>
  {
    set j | 0 <= j < |boxes| :: boxes[j].tag
  }

  /** Every rectangle the packer returns is tagged as one of its boxes. */
  ghost predicate KeepsTags(pack: Packer)
  {
    forall width: int, height: int, boxes: seq<RectSize>, k: int | 0 <= k < |pack(width, height, boxes)| ::
      pack(width, height, boxes)[k].tag in TagsOf(boxes)
  }

  // ---------------------------------------------------------------------
  // Write-back of the placements.

  /** The last rectangle placed for the id, if any: later assignments win. */
  function LastPlacement(ready: seq<Rect>, id: int): Option<Rect>
  {
    if ready == [] then None
    else if ready[|ready| - 1].tag == id then Some(ready[|ready| - 1])
    else LastPlacement(ready[..|ready| - 1], id)
  }

  /** A glyph moved to its placement, or left where it is without one. */
  function Placed(g: GlyphInfo, p: Option<Rect>): GlyphInfo
  {
    match p
    case None => g
    case Some(r) => g.(x := r.x, y := r.y)
  }

  /** No placement exactly when no rectangle carries the id; otherwise the
      placement is one of the rectangles, with that tag, and no later one
      carries it. */
  lemma {:induction false} LastPlacementMeaning(ready: seq<Rect>, id: int)
    ensures LastPlacement(ready, id).None? <==> forall k | 0 <= k < |ready| :: ready[k].tag != id
    ensures LastPlacement(ready, id).Some? ==>
      exists k | 0 <= k < |ready| ::
        && ready[k] == LastPlacement(ready, id).value
        && ready[k].tag == id
        && forall l | k < l < |ready| :: ready[l].tag != id
  {
    LastPlacementAbsent(ready, id);
    if LastPlacement(ready, id).Some? {
      LastPlacementIsLast(ready, id);
    }
  }

  lemma {:induction false} LastPlacementAbsent(ready: seq<Rect>, id: int)
    ensures LastPlacement(ready, id).None? <==> forall k | 0 <= k < |ready| :: ready[k].tag != id
  {
    if ready != [] {
      var front := ready[..|ready| - 1];
      LastPlacementAbsent(front, id);
      assert forall k | 0 <= k < |front| :: front[k] == ready[k];
    }
  }

  lemma {:induction false} LastPlacementIsLast(ready: seq<Rect>, id: int)
    requires LastPlacement(ready, id).Some?
    ensures exists k | 0 <= k < |ready| ::
      && ready[k] == LastPlacement(ready, id).value
      && ready[k].tag == id
      && forall l | k < l < |ready| :: ready[l].tag != id
  {
    var last := |ready| - 1;
    if ready[last].tag != id {
      var front := ready[..last];
      LastPlacementIsLast(front, id);
      var k :| 0 <= k < |front| && front[k] == LastPlacement(front, id).value && front[k].tag == id &&
        forall l | k < l < |front| :: front[l].tag != id;
      assert forall l | k < l < last :: ready[l] == front[l];
      assert ready[k] == LastPlacement(ready, id).value;
    } else {
      assert ready[last] == LastPlacement(ready, id).value;
    }
  }

  /** `glyphs[r.tag].x = r.x; glyphs[r.tag].y = r.y` on the table. */
  function SetPosition(gs: seq<GlyphInfo>, tag: int, x: int, y: int): (r: seq<GlyphInfo>)
    ensures |r| == |gs|
    ensures forall i | 0 <= i < |gs| ::
      r[i].id == gs[i].id && r[i].Metrics() == gs[i].Metrics() && r[i].w == gs[i].w && r[i].h == gs[i].h
    ensures forall i | 0 <= i < |gs| && gs[i].id == tag :: r[i].x == x && r[i].y == y
    ensures forall i | 0 <= i < |gs| && gs[i].id != tag :: r[i] == gs[i]
  {
    seq(|gs|, i requires 0 <= i < |gs| => if gs[i].id == tag then gs[i].(x := x, y := y) else gs[i])
  }

  /** The write-back loop over the packer's rectangles. A tag that names no
      glyph would make `std::map::operator[]` add a blank entry; the packer
      never returns one, which the precondition states. */
  method ApplyPlacements(glyphs: seq<GlyphInfo>, ready: seq<Rect>) returns (placed: seq<GlyphInfo>)
    requires forall k | 0 <= k < |ready| :: ready[k].tag in IdsOf(glyphs)
    ensures |placed| == |glyphs|
    ensures forall i | 0 <= i < |glyphs| :: placed[i] == Placed(glyphs[i], LastPlacement(ready, glyphs[i].id))
  {
    placed := glyphs;
    var k := 0;
    while k < |ready|
      invariant 0 <= k <= |ready|
      invariant |placed| == |glyphs|
      invariant forall i | 0 <= i < |glyphs| :: placed[i] == Placed(glyphs[i], LastPlacement(ready[..k], glyphs[i].id))
    {
      var r := ready[k];
      assert ready[..k + 1][..k] == ready[..k];
      placed := SetPosition(placed, r.tag, r.x, r.y);
      k := k + 1;
    }
    assert ready[..|ready|] == ready;
  }

  /** Write-back moves a glyph only, and only when some rectangle carries its
      id; size, metrics and id never change. */
  lemma PlacedChangesOnlyPosition(g: GlyphInfo, ready: seq<Rect>)
    ensures Placed(g, LastPlacement(ready, g.id)).(x := g.x, y := g.y) == g
    ensures (forall k | 0 <= k < |ready| :: ready[k].tag != g.id) ==> Placed(g, LastPlacement(ready, g.id)) == g
    ensures (exists k | 0 <= k < |ready| :: ready[k].tag == g.id) ==>
      exists k | 0 <= k < |ready| ::
        ready[k].tag == g.id && Placed(g, LastPlacement(ready, g.id)) == g.(x := ready[k].x, y := ready[k].y)
  {
    LastPlacementMeaning(ready, g.id);
  }

  /** Every rectangle carries the id of a glyph with ink. */
  predicate TagsQueued(glyphs: seq<GlyphInfo>, ready: seq<Rect>)
  {
    forall k | 0 <= k < |ready| :: ready[k].tag in IdsOf(NonEmpty(glyphs))
  }

  /** A rectangle tagged as one of the queued boxes carries the id of a glyph with ink. */
  lemma QueuedTags(glyphs: seq<GlyphInfo>, srcRects: seq<RectSize>, ready: seq<Rect>)
    requires QueueOf(glyphs, srcRects)
    requires forall k | 0 <= k < |ready| :: ready[k].tag in TagsOf(srcRects)
    ensures TagsQueued(glyphs, ready)
  {
    forall k | 0 <= k < |ready| ensures ready[k].tag in IdsOf(NonEmpty(glyphs)) {
      var j :| 0 <= j < |srcRects| && srcRects[j].tag == ready[k].tag;
      assert NonEmpty(glyphs)[j].id == ready[k].tag;
    }
  }

  lemma QueuedIdsAreIds(glyphs: seq<GlyphInfo>)
    ensures IdsOf(NonEmpty(glyphs)) <= IdsOf(glyphs)
  {
    forall id | id in IdsOf(NonEmpty(glyphs)) ensures id in IdsOf(glyphs) {
      var j :| 0 <= j < |NonEmpty(glyphs)| && NonEmpty(glyphs)[j].id == id;
      var g := NonEmpty(glyphs)[j];
      assert g in NonEmpty(glyphs);
      var i :| 0 <= i < |glyphs| && glyphs[i] == g;
    }
  }

  /** When every rectangle carries the tag of a queued box, the glyphs
      without ink receive no placement. */
  lemma EmptyGlyphsUnplaced(glyphs: seq<GlyphInfo>, ready: seq<Rect>)
    requires Ascending(glyphs)
    requires TagsQueued(glyphs, ready)
    ensures forall g | g in glyphs && g.IsEmpty() :: LastPlacement(ready, g.id) == None
  {
    NonEmptyExcludesEmpty(glyphs);
    forall g | g in glyphs && g.IsEmpty() ensures LastPlacement(ready, g.id) == None {
      LastPlacementMeaning(ready, g.id);
    }
  }

  // ---------------------------------------------------------------------
  // Where each glyph is drawn.

  /** The destination rectangle of one glyph's blit. */
  datatype Blit = Blit(id: Uint16, x: int, y: int, w: int, h: int)

  /** The offsets of the blit loop: x is the cell's x minus `minx` unless
      `minx` is negative, and y is the cell's y plus `maxy` minus the ascent,
      so y is at most the cell's y when the glyph does not rise above the
      ascent. */
  function BlitOf(g: GlyphInfo, ascent: int): (b: Blit)
    ensures b.id == g.id && b.w == g.w && b.h == g.h
    ensures b.x + (if g.minx < 0 then 0 else g.minx) == g.x
    ensures b.y + (ascent - g.maxy) == g.y
    ensures g.maxy <= ascent ==> b.y <= g.y
    ensures g.minx >= 0 ==> b.x <= g.x
  {
    var x := if g.minx < 0 then g.x else g.x - g.minx;
    Blit(g.id, x, g.y + g.maxy - ascent, g.w, g.h)
  }

  /** The blit loop over the table: one blit per glyph with ink, in id order. */
  method ComputeBlits(glyphs: seq<GlyphInfo>, ascent: int) returns (blits: seq<Blit>)
    ensures |blits| == |NonEmpty(glyphs)|
    ensures forall k | 0 <= k < |blits| :: blits[k] == BlitOf(NonEmpty(glyphs)[k], ascent)
  {
    blits := [];
    var i := 0;
    while i < |glyphs|
      invariant 0 <= i <= |glyphs|
      invariant BlitsOf(glyphs[..i], ascent, blits)
    {
      var glyph := glyphs[i];
      var b := BlitOf(glyph, ascent);
      var empty := glyph.w == 0 && glyph.h == 0;
      assert glyphs[..i + 1] == glyphs[..i] + [glyph];
      BlitsStep(glyphs[..i], glyph, ascent, blits);
      if !empty {
        blits := blits + [b];
      }
      i := i + 1;
    }
    assert glyphs[..|glyphs|] == glyphs;
  }

  /** The blits of the glyphs with ink of gs, in order. */
  predicate BlitsOf(gs: seq<GlyphInfo>, ascent: int, blits: seq<Blit>)
  {
    |blits| == |NonEmpty(gs)| && forall k | 0 <= k < |blits| :: blits[k] == BlitOf(NonEmpty(gs)[k], ascent)
  }

  lemma BlitsStep(gs: seq<GlyphInfo>, g: GlyphInfo, ascent: int, blits: seq<Blit>)
    requires BlitsOf(gs, ascent, blits)
    ensures BlitsOf(gs + [g], ascent, if g.IsEmpty() then blits else blits + [BlitOf(g, ascent)])
  {
    NonEmptyAppend(gs, g);
  }

  // ---------------------------------------------------------------------
  // The font descriptor.

  datatype CharDescriptor = CharDescriptor(
    id: Uint16,
    x: int,
    y: int,
    width: int,
    height: int,
    xoffset: int,
    yoffset: int,
    xadvance: int,
    page: nat,
    chnl: nat)

  /** The row `main` writes for a glyph: its position and size, minx as
      xoffset, the distance from the ascent line to its top as yoffset,
      its advance, page 0 and all four channels. */
  predicate RowOf(c: CharDescriptor, g: GlyphInfo, ascent: int)
  {
    && c.id == g.id
    && c.x == g.x && c.y == g.y && c.width == g.w && c.height == g.h
    && c.xoffset == g.minx
    && c.yoffset + g.maxy == ascent
    && c.xadvance == g.advance
    && c.page == 0 && c.chnl == 15
  }

  /** The descriptor loop: one row per glyph of the table, empty glyphs
      included, in id order. */
  method BuildChars(glyphs: seq<GlyphInfo>, ascent: int) returns (chars: seq<CharDescriptor>)
    ensures |chars| == |glyphs|
    ensures forall i | 0 <= i < |glyphs| :: RowOf(chars[i], glyphs[i], ascent)
    ensures (forall i | 0 <= i < |glyphs| :: glyphs[i].maxy <= ascent) ==>
      forall i | 0 <= i < |chars| :: chars[i].yoffset >= 0
  {
    chars := [];
    var i := 0;
    while i < |glyphs|
      invariant 0 <= i <= |glyphs|
      invariant |chars| == i
      invariant forall j | 0 <= j < i ::
        chars[j] == CharDescriptor(glyphs[j].id, glyphs[j].x, glyphs[j].y, glyphs[j].w, glyphs[j].h,
                                   glyphs[j].minx, ascent - glyphs[j].maxy, glyphs[j].advance, 0, 15)
    {
      var glyph := glyphs[i];
      chars := chars + [CharDescriptor(glyph.id, glyph.x, glyph.y, glyph.w, glyph.h,
                                       glyph.minx, ascent - glyph.maxy, glyph.advance, 0, 15)];
      i := i + 1;
    }
  }

  datatype Page = Page(id: nat, file: string)

  /** The fields of the descriptor the builder sets; kerning pairs are
      cleared and stay empty. */
  datatype FontDescriptor = FontDescriptor(
    face: string,
    lineHeight: int,
    base: int,
    scaleW: int,
    scaleH: int,
    pages: seq<Page>,
    chars: seq<CharDescriptor>)

  /** What the builder produces: the placed glyph table, the blits that draw
      the texture, and the descriptor. */
  datatype BuiltFont = BuiltFont(glyphs: seq<GlyphInfo>, blits: seq<Blit>, descriptor: FontDescriptor)

  /** The body of `main` from the font's ascent to the descriptor. */
  method BuildFont(font: FontFace, textureWidth: int, textureHeight: int, pack: Packer) returns (r: Result<BuiltFont>)
    requires KeepsTags(pack)
    ensures r.Err? <==>
      exists id: Uint16 :: FirstId <= id < EndId && font.hasGlyph(id) && !ValidGlyph(NewGlyph(font, id), font.ascent)
    ensures r.Err? ==> r.error == InvalidGlyph
    ensures r.Ok? ==>
      var d := r.value.descriptor;
      && d.face == (if font.familyName.Some? then font.familyName.value else "unknown")
      && d.lineHeight == font.lineSkip && d.base == font.ascent
      && d.scaleW == textureWidth && d.scaleH == textureHeight
      && d.pages == [Page(0, "output.png")]
    ensures r.Ok? ==>
      var gs := r.value.glyphs;
      var cs := r.value.descriptor.chars;
      && Ascending(gs)
      && (forall id: Uint16 :: id in IdsOf(gs) <==> FirstId <= id < EndId && font.hasGlyph(id))
      && |cs| == |gs|
      && forall i | 0 <= i < |gs| ::
           && cs[i].id == gs[i].id
           && cs[i].yoffset >= 0 && cs[i].page == 0 && cs[i].chnl == 15
           && gs[i].Metrics() == font.metrics(gs[i].id)
           && (gs[i].IsEmpty() ==> cs[i].x == 0 && cs[i].y == 0 && cs[i].width == 0 && cs[i].height == 0)
    ensures r.Ok? ==>
      var gs := r.value.glyphs;
      var table := Unplaced(font, gs);
      var ready := pack(textureWidth, textureHeight, Requests(table));
      forall i | 0 <= i < |gs| :: gs[i] == Placed(table[i], LastPlacement(ready, gs[i].id))
    ensures r.Ok? ==>
      var gs := r.value.glyphs;
      forall i | 0 <= i < |gs| :: RowOf(r.value.descriptor.chars[i], gs[i], font.ascent)
    ensures r.Ok? ==>
      var ne := NonEmpty(r.value.glyphs);
      |r.value.blits| == |ne| && forall k | 0 <= k < |ne| :: r.value.blits[k] == BlitOf(ne[k], font.ascent)
  {
    var collected := CollectGlyphs(font);
    if collected.Err? {
      return Err(collected.error);
    }
    var placed, blits, chars := LayOut(font, collected.value, textureWidth, textureHeight, pack);
    UnplacedTable(font, collected.value.glyphs, placed);
    QueueIsRequests(collected.value.glyphs, collected.value.srcRects);
    var face := if font.familyName.Some? then font.familyName.value else "unknown";
    var descriptor := FontDescriptor(face, font.lineSkip, font.ascent, textureWidth, textureHeight,
                                     [Page(0, "output.png")], chars);
    return Ok(BuiltFont(placed, blits, descriptor));
  }

  /** Packing, write-back, blits and descriptor rows for a collected table. */
  method LayOut(font: FontFace, collected: Collection, textureWidth: int, textureHeight: int, pack: Packer)
    returns (placed: seq<GlyphInfo>, blits: seq<Blit>, chars: seq<CharDescriptor>)
    requires KeepsTags(pack)
    requires Ascending(collected.glyphs)
    requires forall g | g in collected.glyphs ::
      g.x == 0 && g.y == 0 && g.Metrics() == font.metrics(g.id) && ValidGlyph(g, font.ascent)
    requires QueueOf(collected.glyphs, collected.srcRects)
    ensures |placed| == |collected.glyphs|
    ensures forall i | 0 <= i < |placed| ::
      placed[i] == Placed(collected.glyphs[i],
                          LastPlacement(pack(textureWidth, textureHeight, collected.srcRects), collected.glyphs[i].id))
    ensures Ascending(placed) && IdsOf(placed) == IdsOf(collected.glyphs)
    ensures |chars| == |placed|
    ensures forall i | 0 <= i < |placed| :: RowOf(chars[i], placed[i], font.ascent)
    ensures forall i | 0 <= i < |placed| ::
      && chars[i].id == placed[i].id
      && chars[i].yoffset >= 0 && chars[i].page == 0 && chars[i].chnl == 15
      && placed[i].Metrics() == font.metrics(placed[i].id)
      && (placed[i].IsEmpty() ==> chars[i].x == 0 && chars[i].y == 0 && chars[i].width == 0 && chars[i].height == 0)
    ensures |blits| == |NonEmpty(placed)|
    ensures forall k | 0 <= k < |blits| :: blits[k] == BlitOf(NonEmpty(placed)[k], font.ascent)
  {
    var glyphs := collected.glyphs;
    var srcRects := collected.srcRects;
    var ready := pack(textureWidth, textureHeight, srcRects);
    QueuedTags(glyphs, srcRects, ready);
    QueuedIdsAreIds(glyphs);
    EmptyGlyphsUnplaced(glyphs, ready);
    placed := ApplyPlacements(glyphs, ready);
    PlacedTable(glyphs, ready, placed);
    blits := ComputeBlits(placed, font.ascent);
    chars := BuildChars(placed, font.ascent);
    DescriptorRows(font, glyphs, placed, chars);
  }

  /** The table as the collection loop leaves it, rebuilt from its ids:
      every entry at the origin with the font's metrics. */
  function Unplaced(font: FontFace, gs: seq<GlyphInfo>): (table: seq<GlyphInfo>)
    ensures |table| == |gs|
    ensures forall i | 0 <= i < |gs| :: table[i].id == gs[i].id && table[i].x == 0 && table[i].y == 0
  {
    seq(|gs|, i requires 0 <= i < |gs| => NewGlyph(font, gs[i].id))
  }

  /** Write-back keeps the ids, so the collected table is the unplaced one. */
  lemma UnplacedTable(font: FontFace, glyphs: seq<GlyphInfo>, placed: seq<GlyphInfo>)
    requires forall g | g in glyphs :: g == NewGlyph(font, g.id)
    requires |placed| == |glyphs| && forall i | 0 <= i < |glyphs| :: placed[i].id == glyphs[i].id
    ensures Unplaced(font, placed) == glyphs
  {
    forall i | 0 <= i < |glyphs| ensures Unplaced(font, placed)[i] == glyphs[i] {
      assert glyphs[i] in glyphs;
    }
  }

  /** The rows of the descriptor, seen from the collected table. */
  lemma DescriptorRows(font: FontFace, glyphs: seq<GlyphInfo>, placed: seq<GlyphInfo>, chars: seq<CharDescriptor>)
    requires forall g | g in glyphs ::
      g.x == 0 && g.y == 0 && g.Metrics() == font.metrics(g.id) && ValidGlyph(g, font.ascent)
    requires |placed| == |glyphs|
    requires forall i | 0 <= i < |glyphs| ::
      && placed[i].id == glyphs[i].id
      && placed[i].Metrics() == glyphs[i].Metrics() && placed[i].w == glyphs[i].w && placed[i].h == glyphs[i].h
    requires forall i | 0 <= i < |glyphs| && glyphs[i].IsEmpty() :: placed[i] == glyphs[i]
    requires |chars| == |placed|
    requires forall i | 0 <= i < |placed| :: RowOf(chars[i], placed[i], font.ascent)
    ensures forall i | 0 <= i < |placed| ::
      && chars[i].id == placed[i].id
      && chars[i].yoffset >= 0 && chars[i].page == 0 && chars[i].chnl == 15
      && placed[i].Metrics() == font.metrics(placed[i].id)
      && (placed[i].IsEmpty() ==> chars[i].x == 0 && chars[i].y == 0 && chars[i].width == 0 && chars[i].height == 0)
  {
    forall i | 0 <= i < |placed|
      ensures chars[i].yoffset >= 0 && placed[i].Metrics() == font.metrics(placed[i].id)
      ensures placed[i].IsEmpty() ==> chars[i].x == 0 && chars[i].y == 0
    {
      assert glyphs[i] in glyphs;
    }
  }

  /** Write-back keeps the table's ids, order and metrics, and leaves the
      glyphs without ink at the origin. */
  lemma PlacedTable(glyphs: seq<GlyphInfo>, ready: seq<Rect>, placed: seq<GlyphInfo>)
    requires Ascending(glyphs)
    requires |placed| == |glyphs|
    requires forall i | 0 <= i < |glyphs| :: placed[i] == Placed(glyphs[i], LastPlacement(ready, glyphs[i].id))
    requires forall g | g in glyphs && g.IsEmpty() :: LastPlacement(ready, g.id) == None
    ensures Ascending(placed)
    ensures IdsOf(placed) == IdsOf(glyphs)
    ensures forall i | 0 <= i < |glyphs| ::
      placed[i].Metrics() == glyphs[i].Metrics() && placed[i].w == glyphs[i].w && placed[i].h == glyphs[i].h
    ensures forall i | 0 <= i < |glyphs| && glyphs[i].IsEmpty() :: placed[i] == glyphs[i]
  {
    assert forall i | 0 <= i < |glyphs| :: placed[i].id == glyphs[i].id;
    forall i | 0 <= i < |glyphs| && glyphs[i].IsEmpty() ensures placed[i] == glyphs[i] {
      assert glyphs[i] in glyphs;
    }
  }
}
