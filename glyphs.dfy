/** The glyph table of the atlas builder: the font as the builder queries
    it, the `GlyphInfo` record, the `std::map` that holds one record per
    codepoint in id order, and the collection loop that fills it for the
    printable ASCII range and lists the boxes the packer has to place. */
module Glyphs {
  import opened Failures

  /** The codepoint type of SDL_ttf's glyph queries. */
  type Uint16 = n: nat | n < 0x1_0000

  datatype GlyphMetrics = GlyphMetrics(minx: int, maxx: int, miny: int, maxy: int, advance: int)

  /** The font, as far as the builder asks it anything: `IsGlyphProvided`,
      `GetGlyphMetrics`, `GetAscent`, `GetLineSkip`, `GetFamilyName`, and
      the width `GetSizeUNICODE` reports for a text of two characters. */
  datatype FontFace = FontFace(
    hasGlyph: Uint16 -> bool,
    metrics: Uint16 -> GlyphMetrics,
    ascent: int,
    lineSkip: int,
    familyName: Option<string>,
    pairWidth: (Uint16, Uint16) -> int)

  /** `getKerning`: how much the pair is narrower or wider than its two
      advances laid side by side. */
  function Kerning(font: FontFace, ch0: Uint16, ch1: Uint16): (amount: int)
    ensures amount + font.metrics(ch0).advance + font.metrics(ch1).advance == font.pairWidth(ch0, ch1)
    ensures amount == 0 <==> font.pairWidth(ch0, ch1) == font.metrics(ch0).advance + font.metrics(ch1).advance
  {
    font.pairWidth(ch0, ch1) - (font.metrics(ch0).advance + font.metrics(ch1).advance)
  }

  datatype GlyphInfo = GlyphInfo(
    id: Uint16,
    x: int,
    y: int,
    w: int,
    h: int,
    minx: int,
    maxx: int,
    miny: int,
    maxy: int,
    advance: int)
  {
    /** A glyph with no ink, such as the space: nothing to pack or draw. */
    predicate IsEmpty()
    {
      w == 0 && h == 0
    }

    function Metrics(): GlyphMetrics
    {
      GlyphMetrics(minx, maxx, miny, maxy, advance)
    }
  }

  /** The codepoints the collection loop visits: 32 up to, not including, 128. */
  const FirstId: Uint16 := 32
  const EndId: Uint16 := 128

  /** The record the collection loop fills for a provided glyph. */
  function NewGlyph(font: FontFace, id: Uint16): (g: GlyphInfo)
    ensures g.id == id && g.x == 0 && g.y == 0
    ensures g.Metrics() == font.metrics(id)
    ensures g.w == g.maxx - g.minx && g.h == g.maxy - g.miny
    ensures g.IsEmpty() <==> font.metrics(id).minx == font.metrics(id).maxx && font.metrics(id).miny == font.metrics(id).maxy
  {
    var m := font.metrics(id);
    GlyphInfo(id, 0, 0, m.maxx - m.minx, m.maxy - m.miny, m.minx, m.maxx, m.miny, m.maxy, m.advance)
  }

  /** The two checks of the collection loop: the glyph does not rise above
      the ascent, and its box has either no side or two. */
  predicate ValidGlyph(g: GlyphInfo, ascent: int)
  {
    g.maxy <= ascent && (g.w == 0 <==> g.h == 0)
  }

  /** The checks as the loop writes them: not above the ascent, and a glyph
      that is not empty has both sides. */
  lemma ValidGlyphChecks(g: GlyphInfo, ascent: int)
    ensures ValidGlyph(g, ascent) <==>
      !(ascent < g.maxy) && (g.IsEmpty() || !(g.w == 0 || g.h == 0))
  {
  }

  // ---------------------------------------------------------------------
  // The std::map<int, GlyphInfo>, held as its entries in key order.

  predicate Ascending(gs: seq<GlyphInfo>)
  {
    forall i, j | 0 <= i < j < |gs| :: gs[i].id < gs[j].id
  }

  function IdsOf(gs: seq<GlyphInfo>): set<int>
  {
    set i | 0 <= i < |gs| :: gs[i].id as int
  }

  /** `glyphs[id] = info`: the entry of that id is replaced, or a new entry
      is put at its place in id order. */
  function Upsert(gs: seq<GlyphInfo>, g: GlyphInfo): (r: seq<GlyphInfo>)
    ensures g in r
    ensures forall h | h in gs && h.id != g.id :: h in r
    ensures |gs| <= |r| <= |gs| + 1
  {
    if gs == [] then [g]
    else if gs[0].id == g.id then [g] + gs[1..]
    else if g.id < gs[0].id then [g] + gs
    else [gs[0]] + Upsert(gs[1..], g)
  }

  /** Upsert behaves as a map assignment: the new entry is present, every
      entry of another id stays, and nothing else appears. */
  lemma {:induction false} UpsertMembers(gs: seq<GlyphInfo>, g: GlyphInfo)
    requires Ascending(gs)
    ensures forall h :: h in Upsert(gs, g) <==> h == g || (h in gs && h.id != g.id)
  {
    if gs != [] {
      AscendingTail(gs);
      if gs[0].id == g.id {
        assert gs == [gs[0]] + gs[1..];
      } else if g.id < gs[0].id {
      } else {
        UpsertMembers(gs[1..], g);
        assert gs == [gs[0]] + gs[1..];
      }
    }
  }

  /** Upsert keeps the entries in id order. */
  lemma {:induction false} UpsertOrder(gs: seq<GlyphInfo>, g: GlyphInfo)
    requires Ascending(gs)
    ensures Ascending(Upsert(gs, g))
  {
    if gs != [] {
      AscendingTail(gs);
      if gs[0].id == g.id {
        AscendingCons(g, gs[1..]);
      } else if g.id < gs[0].id {
        AscendingCons(g, gs);
      } else {
        UpsertOrder(gs[1..], g);
        UpsertMembers(gs[1..], g);
        AscendingCons(gs[0], Upsert(gs[1..], g));
      }
    }
  }

  lemma AscendingTail(gs: seq<GlyphInfo>)
    requires Ascending(gs) && gs != []
    ensures Ascending(gs[1..])
    ensures forall h | h in gs[1..] :: gs[0].id < h.id
  {
    forall h | h in gs[1..] ensures gs[0].id < h.id {
      var i :| 0 <= i < |gs[1..]| && gs[1..][i] == h;
      assert gs[i + 1] == h;
    }
  }

  lemma AscendingCons(x: GlyphInfo, s: seq<GlyphInfo>)
    requires Ascending(s)
    requires forall h | h in s :: x.id < h.id
    ensures Ascending([x] + s)
  {
    forall i, j | 0 <= i < j < |[x] + s| ensures ([x] + s)[i].id < ([x] + s)[j].id {
      assert ([x] + s)[j] == s[j - 1];
      if i > 0 {
        assert ([x] + s)[i] == s[i - 1];
      }
    }
  }

  lemma AscendingSnoc(s: seq<GlyphInfo>, x: GlyphInfo)
    requires Ascending(s)
    requires forall h | h in s :: h.id < x.id
    ensures Ascending(s + [x])
  {
    forall i, j | 0 <= i < j < |s + [x]| ensures (s + [x])[i].id < (s + [x])[j].id {
      assert (s + [x])[i] == s[i];
      if j < |s| {
        assert (s + [x])[j] == s[j];
      }
    }
  }

  /** Assigning an id above all present ids appends the entry. */
  lemma {:induction false} UpsertAppends(gs: seq<GlyphInfo>, g: GlyphInfo)
    requires forall h | h in gs :: h.id < g.id
    ensures Upsert(gs, g) == gs + [g]
  {
    if gs != [] {
      UpsertAppends(gs[1..], g);
      assert gs == [gs[0]] + gs[1..];
    }
  }

  // ---------------------------------------------------------------------
  // The packer's input.

  /** The glyphs with ink, in table order. */
  function NonEmpty(gs: seq<GlyphInfo>): (r: seq<GlyphInfo>)
    ensures forall h | h in r :: h in gs && !h.IsEmpty()
  {
    if gs == [] then []
    else
      var front := gs[..|gs| - 1];
      assert forall h | h in front :: h in gs;
      NonEmpty(front) + (if gs[|gs| - 1].IsEmpty() then [] else [gs[|gs| - 1]])
  }

  lemma NonEmptyAppend(gs: seq<GlyphInfo>, g: GlyphInfo)
    ensures NonEmpty(gs + [g]) == NonEmpty(gs) + (if g.IsEmpty() then [] else [g])
  {
    assert (gs + [g])[..|gs|] == gs;
  }

  /** Every glyph with ink is among the non-empty glyphs. */
  lemma {:induction false} NonEmptyKeepsInk(gs: seq<GlyphInfo>)
    ensures forall h | h in gs && !h.IsEmpty() :: h in NonEmpty(gs)
  {
    if gs != [] {
      var front := gs[..|gs| - 1];
      NonEmptyKeepsInk(front);
      assert gs == front + [gs[|gs| - 1]];
      NonEmptyAppend(front, gs[|gs| - 1]);
    }
  }

  /** The non-empty glyphs keep the ascending id order of the table. */
  lemma {:induction false} NonEmptyOrder(gs: seq<GlyphInfo>)
    requires Ascending(gs)
    ensures Ascending(NonEmpty(gs))
  {
    if gs != [] {
      var front := gs[..|gs| - 1];
      var last := gs[|gs| - 1];
      FrontBelowLast(gs);
      NonEmptyOrder(front);
      assert gs == front + [last];
      NonEmptyAppend(front, last);
      if !last.IsEmpty() {
        AscendingSnoc(NonEmpty(front), last);
      }
    }
  }

  /** Every glyph but the last has a smaller id than the last. */
  lemma FrontBelowLast(gs: seq<GlyphInfo>)
    requires Ascending(gs) && gs != []
    ensures Ascending(gs[..|gs| - 1])
    ensures forall h | h in gs[..|gs| - 1] :: h.id < gs[|gs| - 1].id
  {
    var front := gs[..|gs| - 1];
    forall i, j | 0 <= i < j < |front| ensures front[i].id < front[j].id {
      assert front[i] == gs[i] && front[j] == gs[j];
    }
    forall h | h in front ensures h.id < gs[|gs| - 1].id {
      var i :| 0 <= i < |front| && front[i] == h;
      assert gs[i] == h;
    }
  }

  /** No glyph without ink shares its id with a non-empty glyph. */
  lemma NonEmptyExcludesEmpty(gs: seq<GlyphInfo>)
    requires Ascending(gs)
    ensures forall h, k | h in gs && h.IsEmpty() && 0 <= k < |NonEmpty(gs)| :: NonEmpty(gs)[k].id != h.id
  {
    UniqueIds(gs);
    forall h, k | h in gs && h.IsEmpty() && 0 <= k < |NonEmpty(gs)| ensures NonEmpty(gs)[k].id != h.id {
      assert NonEmpty(gs)[k] in NonEmpty(gs);
    }
  }

  /** In an ascending table an id names one entry. */
  lemma UniqueIds(gs: seq<GlyphInfo>)
    requires Ascending(gs)
    ensures forall h1, h2 | h1 in gs && h2 in gs && h1.id == h2.id :: h1 == h2
  {
    forall h1, h2 | h1 in gs && h2 in gs && h1.id == h2.id ensures h1 == h2 {
      var i :| 0 <= i < |gs| && gs[i] == h1;
      var j :| 0 <= j < |gs| && gs[j] == h2;
      assert !(i < j) && !(j < i);
    }
  }

  /** One box for the packer: the glyph's size, tagged with its id. */
  datatype RectSize = RectSize(width: int, height: int, tag: int)

  function Request(g: GlyphInfo): RectSize
  {
    RectSize(g.w, g.h, g.id)
  }

  // ---------------------------------------------------------------------
  // The collection loop.

  datatype Collection = Collection(glyphs: seq<GlyphInfo>, srcRects: seq<RectSize>)

  /** The table after the loop has visited the codepoints below `id`: one
      record per provided codepoint, in id order, each as the loop fills it
      and each passing the checks. */
  predicate TableBelow(font: FontFace, glyphs: seq<GlyphInfo>, id: int)
  {
    && Ascending(glyphs)
    && (forall g | g in glyphs :: g.id < id && g == NewGlyph(font, g.id) && ValidGlyph(g, font.ascent))
    && (forall v: Uint16 :: v in IdsOf(glyphs) <==> FirstId <= v < id && font.hasGlyph(v))
  }

  /** The packer's queue: one request per glyph with ink, in table order. */
  predicate QueueOf(glyphs: seq<GlyphInfo>, srcRects: seq<RectSize>)
  {
    |srcRects| == |NonEmpty(glyphs)| && forall k | 0 <= k < |srcRects| :: srcRects[k] == Request(NonEmpty(glyphs)[k])
  }

  /** The boxes the packer receives for a table: one per glyph with ink, in id order. */
  function Requests(glyphs: seq<GlyphInfo>): (srcRects: seq<RectSize>)
    ensures QueueOf(glyphs, srcRects)
  {
    var queued := NonEmpty(glyphs);
    seq(|queued|, k requires 0 <= k < |queued| => Request(queued[k]))
  }

  /** The queue of a table is unique. */
  lemma QueueIsRequests(glyphs: seq<GlyphInfo>, srcRects: seq<RectSize>)
    requires QueueOf(glyphs, srcRects)
    ensures srcRects == Requests(glyphs)
  {
  }

  /** Every provided codepoint from 32 up to `id` passes the checks. */
  predicate ValidBelow(font: FontFace, id: int)
  {
    forall v: Uint16 | FirstId <= v < id && font.hasGlyph(v) :: ValidGlyph(NewGlyph(font, v), font.ascent)
  }

  lemma TableSkip(font: FontFace, glyphs: seq<GlyphInfo>, id: Uint16)
    requires TableBelow(font, glyphs, id) && ValidBelow(font, id) && !font.hasGlyph(id)
    ensures TableBelow(font, glyphs, id + 1) && ValidBelow(font, id + 1)
  {
  }

  lemma TableAdd(font: FontFace, glyphs: seq<GlyphInfo>, id: Uint16)
    requires FirstId <= id
    requires TableBelow(font, glyphs, id) && ValidBelow(font, id)
    requires font.hasGlyph(id) && ValidGlyph(NewGlyph(font, id), font.ascent)
    ensures TableBelow(font, glyphs + [NewGlyph(font, id)], id + 1) && ValidBelow(font, id + 1)
  {
    var info := NewGlyph(font, id);
    AscendingSnoc(glyphs, info);
    assert IdsOf(glyphs + [info]) == IdsOf(glyphs) + {id as int} by {
      assert forall i | 0 <= i < |glyphs| :: (glyphs + [info])[i] == glyphs[i];
    }
  }

  lemma QueueAdd(glyphs: seq<GlyphInfo>, srcRects: seq<RectSize>, info: GlyphInfo)
    requires QueueOf(glyphs, srcRects)
    ensures QueueOf(glyphs + [info], srcRects + (if info.IsEmpty() then [] else [Request(info)]))
  {
    NonEmptyAppend(glyphs, info);
  }

  /** The loop over the codepoints 32 to 127: skip those the font lacks,
      record the others, refuse the first glyph that fails a check, and
      queue a box for each glyph with ink. */
  method CollectGlyphs(font: FontFace) returns (r: Result<Collection>)
    ensures r.Err? <==>
      exists id: Uint16 :: FirstId <= id < EndId && font.hasGlyph(id) && !ValidGlyph(NewGlyph(font, id), font.ascent)
    ensures r.Err? ==> r.error == InvalidGlyph
    ensures r.Ok? ==> Ascending(r.value.glyphs)
    ensures r.Ok? ==> forall id: Uint16 :: id in IdsOf(r.value.glyphs) <==> FirstId <= id < EndId && font.hasGlyph(id)
    ensures r.Ok? ==> forall g | g in r.value.glyphs :: g == NewGlyph(font, g.id) && ValidGlyph(g, font.ascent)
    ensures r.Ok? ==>
      var queued := NonEmpty(r.value.glyphs);
      |r.value.srcRects| == |queued| && forall k | 0 <= k < |queued| :: r.value.srcRects[k] == Request(queued[k])
  {
    var glyphs: seq<GlyphInfo> := [];
    var srcRects: seq<RectSize> := [];
    var id: Uint16 := FirstId;
    while id < EndId
      invariant FirstId <= id <= EndId
      invariant TableBelow(font, glyphs, id) && ValidBelow(font, id)
      invariant QueueOf(glyphs, srcRects)
    {
      if !font.hasGlyph(id) {
        TableSkip(font, glyphs, id);
        id := id + 1;
        continue;
      }
      var info := NewGlyph(font, id);
      if font.ascent < info.maxy {
        return Err(InvalidGlyph);
      }
      var empty := info.w == 0 && info.h == 0;
      if !empty && (info.w == 0 || info.h == 0) {
        return Err(InvalidGlyph);
      }
      UpsertAppends(glyphs, info);
      TableAdd(font, glyphs, id);
      QueueAdd(glyphs, srcRects, info);
      glyphs := Upsert(glyphs, info);
      if !empty {
        srcRects := srcRects + [Request(info)];
      }
      id := id + 1;
    }
    return Ok(Collection(glyphs, srcRects));
  }
}
