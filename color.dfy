/** `helpers::parseColor`: an "R,G,B" text such as " 32, 255 ,255" becomes
    a colour. The text must match
    `^\s*\d{1,3}\s*,\s*\d{1,3}\s*,\s*\d{1,3}\s*$`; it is then cut at the
    commas, each piece is trimmed and read as an integer, and any value
    above 255 is refused. Every failure is "invalid color". */
module Color {
  import opened Failures
  import opened Strings

  type Byte = n: nat | n < 256

  datatype Rgb = Rgb(r: Byte, g: Byte, b: Byte)

  // ---------------------------------------------------------------------
  // The grammar of the regular expression, written out.

  /** A component cut into its leading blanks, its digits and its trailing blanks. */
  datatype Piece = Piece(pre: string, digits: string, post: string)
  {
    /** `\s*\d{1,3}\s*` */
    predicate Valid()
    {
      AllSpaces(pre) && 1 <= |digits| <= 3 && AllDigits(digits) && AllSpaces(post)
    }

    function Text(): string
    {
      pre + digits + post
    }
  }

  /** `\s*\d{1,3}\s*` */
  predicate Component(p: string)
  {
    exists i, j | 0 <= i <= j <= |p| :: Piece(p[..i], p[i..j], p[j..]).Valid()
  }

  /** `^\s*\d{1,3}\s*,\s*\d{1,3}\s*,\s*\d{1,3}\s*$` */
  predicate ColorSyntax(s: string)
  {
    exists i, j | 0 <= i < j < |s| ::
      s[i] == ',' && s[j] == ',' && Component(s[..i]) && Component(s[i + 1..j]) && Component(s[j + 1..])
  }

  lemma ComponentHasNoComma(p: string)
    requires Component(p)
    ensures ',' !in p
  {
    var i, j :| 0 <= i <= j <= |p| && Piece(p[..i], p[i..j], p[j..]).Valid();
    forall k | 0 <= k < |p| ensures p[k] != ',' {
      if k < i {
        assert p[k] == p[..i][k];
      } else if k < j {
        assert p[k] == p[i..j][k - i];
      } else {
        assert p[k] == p[j..][k - j];
      }
    }
  }

  /** Trimming a component leaves its digits. */
  lemma ComponentTrim(p: string)
    requires Component(p)
    ensures 1 <= |Trim(p)| <= 3 && AllDigits(Trim(p))
  {
    var f := ComponentFields(p);
    PieceText(f);
  }

  /** Three comma-free pieces joined by commas are cut back into those pieces. */
  lemma SplitThree(a: string, b: string, c: string)
    requires ',' !in a && ',' !in b && ',' !in c
    ensures Split(a + [','] + b + [','] + c, ',') == [a, b, c]
  {
    assert a + [','] + b + [','] + c == a + [','] + (b + [','] + c);
    SplitAppend(a, ',', b + [','] + c);
    SplitAppend(b, ',', c);
    SplitNoSeparator(a, ',');
    SplitNoSeparator(b, ',');
    SplitNoSeparator(c, ',');
  }

  /** A text the grammar accepts is cut by `boost::split` into its three components. */
  lemma ColorSyntaxSplit(s: string)
    ensures ColorSyntax(s) ==>
      var rgb := Split(s, ',');
      |rgb| == 3 && Component(rgb[0]) && Component(rgb[1]) && Component(rgb[2])
  {
    if ColorSyntax(s) {
      var i, j :| 0 <= i < j < |s| &&
        s[i] == ',' && s[j] == ',' && Component(s[..i]) && Component(s[i + 1..j]) && Component(s[j + 1..]);
      CutAtCommas(s, i, j);
      ComponentHasNoComma(s[..i]);
      ComponentHasNoComma(s[i + 1..j]);
      ComponentHasNoComma(s[j + 1..]);
      SplitThree(s[..i], s[i + 1..j], s[j + 1..]);
    }
  }

  lemma CutAtCommas(s: string, i: nat, j: nat)
    requires i < j < |s| && s[i] == ',' && s[j] == ','
    ensures s == s[..i] + [','] + s[i + 1..j] + [','] + s[j + 1..]
  {
  }

  // ---------------------------------------------------------------------
  // The meaning of the text.

  /** The `colorToUint8` lambda: trim, read as an integer, refuse values
      outside 0..255. */
  function ComponentValue(p: string): (r: Option<Byte>)
    ensures r.Some? ==> AllDigits(Trim(p)) && r.value == DecimalValue(Trim(p))
    ensures Component(p) ==> AllDigits(Trim(p)) && (r.None? <==> DecimalValue(Trim(p)) > 255)
  {
    var t := Trim(p);
    var r := if 1 <= |t| && AllDigits(t) && DecimalValue(t) <= 255 then Some(DecimalValue(t)) else None;
    if Component(p) then
      ComponentTrim(p);
      r
    else
      r
  }

  /** `helpers::parseColor`; its only failure is "invalid color". */
  function ParseColor(str: string): (r: Result<Rgb>)
    ensures r.Err? ==> r.error == InvalidColor
  {
    if !ColorSyntax(str) then Err(InvalidColor)
    else
      ColorSyntaxSplit(str);
      var rgb := Split(str, ',');
      var r, g, b := ComponentValue(rgb[0]), ComponentValue(rgb[1]), ComponentValue(rgb[2]);
      if r.Some? && g.Some? && b.Some? then Ok(Rgb(r.value, g.value, b.value)) else Err(InvalidColor)
  }

  // ---------------------------------------------------------------------
  // Properties.

  /** The text of three components joined by commas. */
  function ColorText(f0: Piece, f1: Piece, f2: Piece): string
  {
    f0.Text() + "," + f1.Text() + "," + f2.Text()
  }

  lemma PieceText(f: Piece)
    requires f.Valid()
    ensures Component(f.Text())
    ensures ',' !in f.Text()
    ensures Trim(f.Text()) == f.digits
  {
    var p := f.Text();
    var i, j := |f.pre|, |f.pre| + |f.digits|;
    assert p[..i] == f.pre && p[i..j] == f.digits && p[j..] == f.post;
    ComponentHasNoComma(p);
    assert IsDigit(f.digits[0]) && IsDigit(f.digits[|f.digits| - 1]);
    TrimAround(f.pre, f.digits, f.post);
  }

  /** Every text of the form "\s*D\s*,\s*D\s*,\s*D\s*" (D of 1 to 3 digits)
      is read as the colour of its three numbers, and refused exactly when
      one of them is above 255. */
  lemma ParseColorFields(f0: Piece, f1: Piece, f2: Piece)
    requires f0.Valid() && f1.Valid() && f2.Valid()
    ensures var v0, v1, v2 := DecimalValue(f0.digits), DecimalValue(f1.digits), DecimalValue(f2.digits);
      ParseColor(ColorText(f0, f1, f2)) ==
        if v0 <= 255 && v1 <= 255 && v2 <= 255 then Ok(Rgb(v0, v1, v2)) else Err(InvalidColor)
  {
    var a, b, c := f0.Text(), f1.Text(), f2.Text();
    PieceValue(f0);
    PieceValue(f1);
    PieceValue(f2);
    assert ColorText(f0, f1, f2) == a + [','] + b + [','] + c;
    JoinedColorSyntax(a, b, c);
    SplitThree(a, b, c);
  }

  /** A valid piece is a comma-free component whose value is that of its digits. */
  lemma PieceValue(f: Piece)
    requires f.Valid()
    ensures Component(f.Text()) && ',' !in f.Text()
    ensures ComponentValue(f.Text()) ==
      if DecimalValue(f.digits) <= 255 then Some(DecimalValue(f.digits)) else None
  {
    PieceText(f);
  }

  lemma JoinedColorSyntax(a: string, b: string, c: string)
    requires Component(a) && Component(b) && Component(c)
    ensures ColorSyntax(a + [','] + b + [','] + c)
  {
    var s := a + [','] + b + [','] + c;
    var i, j := |a|, |a| + 1 + |b|;
    assert s[..i] == a && s[i + 1..j] == b && s[j + 1..] == c;
    assert s[i] == ',' && s[j] == ',';
  }

  /** Every text the grammar accepts has that form. */
  lemma ColorSyntaxFields(s: string)
    requires ColorSyntax(s)
    ensures exists f0: Piece, f1: Piece, f2: Piece ::
      f0.Valid() && f1.Valid() && f2.Valid() && s == ColorText(f0, f1, f2)
  {
    var i, j :| 0 <= i < j < |s| &&
      s[i] == ',' && s[j] == ',' && Component(s[..i]) && Component(s[i + 1..j]) && Component(s[j + 1..]);
    CutAtCommas(s, i, j);
    var f0 := ComponentFields(s[..i]);
    var f1 := ComponentFields(s[i + 1..j]);
    var f2 := ComponentFields(s[j + 1..]);
    assert f0.Valid() && f1.Valid() && f2.Valid() && s == ColorText(f0, f1, f2);
  }

  /** The three parts of a component. */
  lemma ComponentFields(p: string) returns (f: Piece)
    requires Component(p)
    ensures f.Valid() && p == f.Text()
  {
    var i, j :| 0 <= i <= j <= |p| && Piece(p[..i], p[i..j], p[j..]).Valid();
    f := Piece(p[..i], p[i..j], p[j..]);
    assert p == p[..i] + p[i..j] + p[j..];
  }

  /** Writing a colour as "R,G,B" and parsing it gives the colour back. */
  lemma ParseColorRoundTrip(c: Rgb)
    ensures ParseColor(Decimal(c.r) + "," + Decimal(c.g) + "," + Decimal(c.b)) == Ok(c)
  {
    var f0, f1, f2 := Piece("", Decimal(c.r), ""), Piece("", Decimal(c.g), ""), Piece("", Decimal(c.b), "");
    assert f0.Text() == Decimal(c.r) && f1.Text() == Decimal(c.g) && f2.Text() == Decimal(c.b);
    assert Decimal(c.r) + "," + Decimal(c.g) + "," + Decimal(c.b) == ColorText(f0, f1, f2);
    ByteDecimal(c.r);
    ByteDecimal(c.g);
    ByteDecimal(c.b);
    ParseColorFields(f0, f1, f2);
  }

  lemma ByteDecimal(n: Byte)
    ensures 1 <= |Decimal(n)| <= 3 && DecimalValue(Decimal(n)) == n
  {
    assert Pow10(3) == 1000 by {
      assert Pow10(1) == 10;
      assert Pow10(2) == 100;
    }
    DecimalLength(n, 3);
    DecimalRoundTrip(n);
  }

  /** "256,0,0" is refused: its first component is out of range. */
  lemma Refuses256()
    ensures ParseColor("256,0,0") == Err(InvalidColor)
  {
    assert "256"[..2] == "25" && "25"[..1] == "2" && "2"[..0] == "";
    assert DecimalValue("256") == 256;
    var f0, f1 := Piece("", "256", ""), Piece("", "0", "");
    ParseColorFields(f0, f1, f1);
    assert ColorText(f0, f1, f1) == "256,0,0";
  }

  /** "1,2" is refused: it has two components, not three. */
  lemma RefusesTwoComponents()
    ensures ParseColor("1,2") == Err(InvalidColor)
  {
    ColorSyntaxSplit("1,2");
    assert "1,2" == "1" + [','] + "2";
    SplitAppend("1", ',', "2");
    SplitNoSeparator("1", ',');
    SplitNoSeparator("2", ',');
    assert |Split("1,2", ',')| == 2;
  }
}
