/** The part of `helpers::parseCommandLine` that turns option texts into
    configuration values: the default character range, the union with the
    characters of the chars file, the colours, and the case-insensitive
    choice of the descriptor format. Option declaration and reading are
    done by boost::program_options and are not modelled; the texts arrive
    here as `RawOptions`, with boost's defaults already applied. */
module ProgramOptions {
  import opened Failures
  import opened Strings
  import opened CharsString
  import opened Color

  datatype DataFormat = Text | Xml | Bin | Json

  /** The lower-case name that selects each format. */
  function FormatName(f: DataFormat): string
  {
    match f
    case Text => "txt"
    case Xml => "xml"
    case Bin => "bin"
    case Json => "json"
  }

  /** `boost::algorithm::to_lower(dataFormat)` and the if-chain that follows. */
  function ParseDataFormat(s: string): (r: Result<DataFormat>)
    ensures r.Err? ==> r.error == InvalidDataFormat
  {
    var name := ToLower(s);
    if name == "txt" then Ok(Text)
    else if name == "xml" then Ok(Xml)
    else if name == "bin" then Ok(Bin)
    else if name == "json" then Ok(Json)
    else Err(InvalidDataFormat)
  }

  /** A format is selected exactly by its name in any letter case, and a
      text that lower-cases to no name is "invalid data format". */
  lemma ParseDataFormatIff(s: string)
    ensures forall f: DataFormat :: ParseDataFormat(s) == Ok(f) <==> ToLower(s) == FormatName(f)
    ensures ParseDataFormat(s).Err? <==> forall f: DataFormat :: ToLower(s) != FormatName(f)
  {
    assert FormatName(Text) == "txt" && FormatName(Xml) == "xml";
    assert FormatName(Bin) == "bin" && FormatName(Json) == "json";
  }

  lemma LowerOfUpper(c: char)
    ensures LowerChar(UpperChar(c)) == LowerChar(c)
  {
  }

  /** Changing the letter case of the option does not change the format. */
  lemma ParseDataFormatCaseInsensitive(s: string)
    ensures ParseDataFormat(ToUpper(s)) == ParseDataFormat(s)
    ensures ParseDataFormat(ToLower(s)) == ParseDataFormat(s)
  {
    forall i | 0 <= i < |s| ensures ToLower(ToUpper(s))[i] == ToLower(s)[i] {
      LowerOfUpper(s[i]);
    }
    assert ToLower(ToUpper(s)) == ToLower(s);
    assert ToLower(ToLower(s)) == ToLower(s);
  }

  /** Every format's name, in upper or lower case, selects it. */
  lemma ParseDataFormatRoundTrip(f: DataFormat)
    ensures ParseDataFormat(FormatName(f)) == Ok(f)
    ensures ParseDataFormat(ToUpper(FormatName(f))) == Ok(f)
  {
    var n := FormatName(f);
    assert ToLower(n) == n;
    ParseDataFormatCaseInsensitive(n);
  }

  /** The option texts after boost::program_options has read them. */
  datatype RawOptions = RawOptions(
    chars: string,
    charsFile: string,
    color: string,
    backgroundColor: string,
    dataFormat: string,
    includeKerningPairs: bool)

  /** The fields of `Config` that `parseCommandLine` computes itself. */
  datatype Config = Config(
    chars: set<nat>,
    color: Rgb,
    backgroundColor: Option<Rgb>,
    dataFormat: DataFormat,
    includeKerningPairs: bool)

  /** The `--chars` text used when neither `--chars` nor `--chars-file` is given. */
  const DefaultChars: string := "32-127"

  /** The text `parseCharsString` receives. */
  function CharsText(opts: RawOptions): string
  {
    if opts.chars == [] && opts.charsFile == [] then DefaultChars else opts.chars
  }

  /** The default text stands for the codepoints 32 to 127. */
  lemma DefaultCharsSet()
    ensures ParseChars(DefaultChars).Ok?
    ensures forall v: nat :: v in ParseChars(DefaultChars).value <==> 32 <= v <= 127
  {
    DefaultCharsText();
    ParseCharsRange("32", "127");
  }

  lemma DefaultCharsText()
    ensures DefaultChars == "32" + "-" + "127"
    ensures Number("32") && DecimalValue("32") == 32
    ensures Number("127") && DecimalValue("127") == 127
  {
    assert "32"[..1] == "3" && "3"[..0] == "";
    assert "127"[..2] == "12" && "12"[..1] == "1" && "1"[..0] == "";
  }

  /** The first half of `helpers::parseCommandLine`: the `--chars` text
      (or the default range) joined with the characters of `--chars-file`;
      `readCharsFile` stands for `helpers::getCharsFromFile`. */
  method SelectChars(opts: RawOptions, readCharsFile: string -> Result<set<nat>>) returns (r: Result<set<nat>>)
    ensures r.Ok? <==>
      ParseChars(CharsText(opts)).Ok? && (opts.charsFile != [] ==> readCharsFile(opts.charsFile).Ok?)
    ensures r.Ok? && opts.chars == [] && opts.charsFile == [] ==>
      forall v: nat :: v in r.value <==> 32 <= v <= 127
    ensures r.Ok? && (opts.chars != [] || opts.charsFile != []) ==>
      r.value == ParseChars(opts.chars).value +
        (if opts.charsFile == [] then {} else readCharsFile(opts.charsFile).value)
    ensures ParseChars(CharsText(opts)).Err? ==> r == Err(ParseChars(CharsText(opts)).error)
    ensures ParseChars(CharsText(opts)).Ok? && opts.charsFile != [] && readCharsFile(opts.charsFile).Err? ==>
      r == Err(readCharsFile(opts.charsFile).error)
  {
    var chars := opts.chars;
    if chars == [] && opts.charsFile == [] {
      chars := DefaultChars;
      DefaultCharsSet();
    }
    var parsed := ParseCharsString(chars);
    if parsed.Err? {
      return Err(parsed.error);
    }
    var codepoints := parsed.value;
    if opts.charsFile != [] {
      var fromFile := readCharsFile(opts.charsFile);
      if fromFile.Err? {
        return Err(fromFile.error);
      }
      codepoints := codepoints + fromFile.value;
    }
    return Ok(codepoints);
  }

  /** `--background-color`: no background when the option is empty. */
  function ParseBackground(s: string): (r: Result<Option<Rgb>>)
    ensures s == [] ==> r == Ok(None)
    ensures s != [] ==> (r.Ok? <==> ParseColor(s).Ok?)
    ensures s != [] && r.Ok? ==> r.value == Some(ParseColor(s).value)
    ensures r.Err? ==> r.error == InvalidColor
  {
    if s == [] then Ok(None)
    else
      var c := ParseColor(s);
      if c.Err? then Err(c.error) else Ok(Some(c.value))
  }

  /** The characters are read without failure: `parseCharsString` and,
      when a chars file is given, `getCharsFromFile` succeed. */
  predicate CharsReadable(opts: RawOptions, readCharsFile: string -> Result<set<nat>>)
  {
    ParseChars(CharsText(opts)).Ok? && (opts.charsFile != [] ==> readCharsFile(opts.charsFile).Ok?)
  }

  /** `helpers::parseCommandLine` from the point where the option texts are
      known. The failures surface in the order the program raises them:
      characters, chars file, colour, background colour, data format. */
  method ParseCommandLine(opts: RawOptions, readCharsFile: string -> Result<set<nat>>) returns (r: Result<Config>)
    ensures r.Ok? <==>
      && CharsReadable(opts, readCharsFile)
      && ParseColor(opts.color).Ok?
      && ParseBackground(opts.backgroundColor).Ok?
      && ParseDataFormat(opts.dataFormat).Ok?
    ensures r.Ok? && opts.chars == [] && opts.charsFile == [] ==>
      forall v: nat :: v in r.value.chars <==> 32 <= v <= 127
    ensures r.Ok? && (opts.chars != [] || opts.charsFile != []) ==>
      r.value.chars == ParseChars(opts.chars).value +
        (if opts.charsFile == [] then {} else readCharsFile(opts.charsFile).value)
    ensures r.Ok? ==>
      && r.value.color == ParseColor(opts.color).value
      && r.value.backgroundColor == ParseBackground(opts.backgroundColor).value
      && FormatName(r.value.dataFormat) == ToLower(opts.dataFormat)
      && r.value.includeKerningPairs == opts.includeKerningPairs
    ensures ParseChars(CharsText(opts)).Err? ==> r == Err(ParseChars(CharsText(opts)).error)
    ensures ParseChars(CharsText(opts)).Ok? && opts.charsFile != [] && readCharsFile(opts.charsFile).Err? ==>
      r == Err(readCharsFile(opts.charsFile).error)
    ensures CharsReadable(opts, readCharsFile) && ParseColor(opts.color).Err? ==>
      r == Err(InvalidColor)
    ensures
      (CharsReadable(opts, readCharsFile) && ParseColor(opts.color).Ok? &&
       ParseBackground(opts.backgroundColor).Err?) ==>
      r == Err(InvalidColor)
    ensures
      (CharsReadable(opts, readCharsFile) && ParseColor(opts.color).Ok? &&
       ParseBackground(opts.backgroundColor).Ok? && ParseDataFormat(opts.dataFormat).Err?) ==>
      r == Err(InvalidDataFormat)
  {
    var chars := SelectChars(opts, readCharsFile);
    if chars.Err? {
      return Err(chars.error);
    }
    var color := ParseColor(opts.color);
    if color.Err? {
      return Err(color.error);
    }
    var background := ParseBackground(opts.backgroundColor);
    if background.Err? {
      return Err(background.error);
    }
    var format := ParseDataFormat(opts.dataFormat);
    if format.Err? {
      return Err(format.error);
    }
    ParseDataFormatIff(opts.dataFormat);
    return Ok(Config(chars.value, color.value, background.value, format.value, opts.includeKerningPairs));
  }

  /** boost's default for `--data-format`. */
  const DefaultDataFormat: string := "txt"

  /** Without `--data-format` the descriptor is written as text. */
  lemma DefaultDataFormatIsText()
    ensures ParseDataFormat(DefaultDataFormat) == Ok(Text)
  {
    ParseDataFormatRoundTrip(Text);
  }

  /** The default foreground colour "255,255,255" is white. */
  lemma DefaultColorIsWhite()
    ensures ParseColor("255,255,255") == Ok(Rgb(255, 255, 255))
  {
    var f := Piece("", "255", "");
    Piece255(f);
    ParseColorFields(f, f, f);
  }

  lemma Piece255(f: Piece)
    requires f == Piece("", "255", "")
    ensures f.Valid() && DecimalValue(f.digits) == 255
    ensures ColorText(f, f, f) == "255,255,255"
  {
    assert "255"[..2] == "25" && "25"[..1] == "2" && "2"[..0] == "";
  }
}
