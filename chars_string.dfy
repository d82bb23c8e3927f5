/** `helpers::parseCharsString`: the `--chars` text such as
    "32-64,92,120-126" becomes a set of codepoints.

    The text is first stripped of every whitespace character; an empty
    remainder means "no characters". Otherwise it must match
    `^\d{1,5}(-\d{1,5})?(,\d{1,5}(-\d{1,5})?)*$`, each number must fit in
    16 bits, and item `a-b` contributes every v with a <= v < b plus b itself
    (so a reversed item contributes only b). */
module CharsString {
  import opened Failures
  import opened Strings

  // ---------------------------------------------------------------------
  // The grammar of the regular expression, written out.

  /** `\d{1,5}` */
  predicate Number(s: string)
  {
    1 <= |s| <= 5 && AllDigits(s)
  }

  /** `\d{1,5}(-\d{1,5})?` */
  predicate RangeItem(s: string)
  {
    Number(s) || exists k | 0 < k < |s| :: s[k] == '-' && Number(s[..k]) && Number(s[k + 1..])
  }

  /** `^\d{1,5}(-\d{1,5})?(,\d{1,5}(-\d{1,5})?)*$`: one item, or an item, a
      comma and the rest of the list. */
  predicate CharsSyntax(s: string)
    decreases |s|
  {
    RangeItem(s) || exists k | 0 < k < |s| :: s[k] == ',' && RangeItem(s[..k]) && CharsSyntax(s[k + 1..])
  }

  lemma NumberHasNoSeparator(s: string)
    requires Number(s)
    ensures ',' !in s && '-' !in s
  {
    forall i | 0 <= i < |s| ensures s[i] != ',' && s[i] != '-' {
      assert IsDigit(s[i]);
    }
  }

  lemma RangeItemHasNoComma(s: string)
    requires RangeItem(s)
    ensures ',' !in s
  {
    if !Number(s) {
      var k :| 0 < k < |s| && s[k] == '-' && Number(s[..k]) && Number(s[k + 1..]);
      NumberHasNoSeparator(s[..k]);
      NumberHasNoSeparator(s[k + 1..]);
      assert s == s[..k] + [s[k]] + s[k + 1..];
    }
  }

  /** The regular expression accepts exactly the texts whose comma-separated
      pieces (as `boost::split` cuts them) are all items. */
  lemma {:induction false} CharsSyntaxSplit(s: string)
    ensures CharsSyntax(s) <==> forall p | p in Split(s, ',') :: RangeItem(p)
    decreases |s|
  {
    if ',' !in s {
      SplitNoSeparator(s, ',');
    } else {
      var k := FirstIndex(s, ',');
      CutAtFirstComma(s, k);
      SyntaxAtFirstComma(s, k);
      CharsSyntaxSplit(s[k + 1..]);
      var rest := Split(s[k + 1..], ',');
      assert Split(s, ',') == [s[..k]] + rest;
      assert forall p | p in [s[..k]] + rest :: p == s[..k] || p in rest;
    }
  }

  /** Cutting at the first comma: the first piece, then the pieces of the rest. */
  lemma CutAtFirstComma(s: string, k: nat)
    requires ',' in s && k == FirstIndex(s, ',')
    ensures Split(s, ',') == [s[..k]] + Split(s[k + 1..], ',')
  {
    var a, b := s[..k], s[k + 1..];
    assert s == a + [','] + b;
    SplitAppend(a, ',', b);
    SplitNoSeparator(a, ',');
  }

  /** A list with a comma is its first item, a comma, and a list. */
  lemma SyntaxAtFirstComma(s: string, k: nat)
    requires ',' in s && k == FirstIndex(s, ',')
    ensures CharsSyntax(s) <==> RangeItem(s[..k]) && CharsSyntax(s[k + 1..])
  {
    if CharsSyntax(s) {
      FirstCommaOfSyntax(s, k);
    }
    if RangeItem(s[..k]) && CharsSyntax(s[k + 1..]) {
      assert 0 < k by {
        assert s[..0] == [];
      }
    }
  }

  /** The comma after a list's first item is its first comma. */
  lemma FirstCommaOfSyntax(s: string, k: nat)
    requires ',' in s && k == FirstIndex(s, ',') && CharsSyntax(s)
    ensures RangeItem(s[..k]) && CharsSyntax(s[k + 1..])
  {
    if RangeItem(s) {
      RangeItemHasNoComma(s);
      assert false;
    }
    var j :| 0 < j < |s| && s[j] == ',' && RangeItem(s[..j]) && CharsSyntax(s[j + 1..]);
    RangeItemHasNoComma(s[..j]);
    OneFirstComma(s, j, k);
  }

  /** Two commas with no comma before either are the same comma. */
  lemma OneFirstComma(s: string, j: nat, k: nat)
    requires j < |s| && s[j] == ',' && ',' !in s[..j]
    requires k < |s| && s[k] == ',' && ',' !in s[..k]
    ensures j == k
  {
  }

  /** An item cut at '-' gives one or two numbers. */
  lemma RangeItemSplit(p: string)
    requires RangeItem(p)
    ensures var mm := Split(p, '-');
      (|mm| == 1 || |mm| == 2) && forall q | q in mm :: Number(q)
  {
    if Number(p) {
      NumberHasNoSeparator(p);
      SplitNoSeparator(p, '-');
    } else {
      var k :| 0 < k < |p| && p[k] == '-' && Number(p[..k]) && Number(p[k + 1..]);
      SplitAtDash(p, k);
    }
  }

  lemma SplitAtDash(p: string, k: nat)
    requires 0 < k < |p| && p[k] == '-' && Number(p[..k]) && Number(p[k + 1..])
    ensures Split(p, '-') == [p[..k], p[k + 1..]]
  {
    NumberHasNoSeparator(p[..k]);
    NumberHasNoSeparator(p[k + 1..]);
    assert p == p[..k] + ['-'] + p[k + 1..];
    SplitAppend(p[..k], '-', p[k + 1..]);
    SplitNoSeparator(p[..k], '-');
    SplitNoSeparator(p[k + 1..], '-');
  }

  // ---------------------------------------------------------------------
  // The meaning of the text.

  /** `boost::lexical_cast<uint16_t>` of a string of digits: fails above 65535. */
  function CastU16(s: string): (r: Option<nat>)
    ensures r.Some? ==> 1 <= |s| && AllDigits(s) && r.value == DecimalValue(s) && r.value < 0x1_0000
    ensures Number(s) ==> (r.None? <==> DecimalValue(s) >= 0x1_0000)
  {
    if 1 <= |s| && AllDigits(s) && DecimalValue(s) <= 65535 then Some(DecimalValue(s)) else None
  }

  /** The pair `charList` gets for one item: the item cut at '-', the lone
      number doubled, each half cast to 16 bits. */
  function ItemBounds(range: string): (r: Option<(nat, nat)>)
    ensures r.Some? ==> r.value.0 < 0x1_0000 && r.value.1 < 0x1_0000
    ensures r.Some? && '-' !in range ==> AllDigits(range) && r.value.0 == r.value.1 == DecimalValue(range)
  {
    var minMax := Split(range, '-');
    var first := CastU16(minMax[0]);
    var second := CastU16(if |minMax| == 1 then minMax[0] else minMax[1]);
    var r := if first.Some? && second.Some? then Some((first.value, second.value)) else None;
    if '-' in range then r
    else
      SplitNoSeparator(range, '-');
      r
  }

  /** `charList` for all items, or None when some cast fails. */
  function Bounds(ranges: seq<string>): Option<seq<(nat, nat)>>
  {
    if ranges == [] then Some([])
    else
      match Bounds(ranges[..|ranges| - 1])
      case None => None
      case Some(ps) =>
        match ItemBounds(ranges[|ranges| - 1])
        case None => None
        case Some(p) => Some(ps + [p])
  }

  /** The codepoints lo <= v < hi. */
  function HalfOpen(lo: nat, hi: nat): (r: set<nat>)
    ensures forall v: nat :: v in r <==> lo <= v < hi
    decreases hi
  {
    if hi <= lo then {} else HalfOpen(lo, hi - 1) + {hi - 1}
  }

  /** What the inner loop inserts for one pair: first <= v < second, then second. */
  function ItemSet(p: (nat, nat)): set<nat>
  {
    HalfOpen(p.0, p.1) + {p.1}
  }

  /** The union over all pairs. */
  function Expand(ps: seq<(nat, nat)>): set<nat>
  {
    if ps == [] then {} else Expand(ps[..|ps| - 1]) + ItemSet(ps[|ps| - 1])
  }

  /** The result of `parseCharsString`, as a function of its argument. */
  function ParseChars(str: string): (r: Result<set<nat>>)
    ensures r.Err? ==> r.error == InvalidCharsValue || r.error == CharsOutOfRange
  {
    var s := RemoveSpaces(str);
    if s == [] then Ok({})
    else if !CharsSyntax(s) then Err(InvalidCharsValue)
    else
      match Bounds(Split(s, ','))
      case None => Err(CharsOutOfRange)
      case Some(ps) => Ok(Expand(ps))
  }

  // ---------------------------------------------------------------------
  // The imperative code.

  /** `str.erase(std::remove_if(str.begin(), str.end(), isspace), str.end())`:
      compacts the non-whitespace characters to the front of the buffer in
      place and returns the new length. */
  method EraseSpaces(a: array<char>) returns (len: nat)
    modifies a
    ensures len <= a.Length
    ensures a[..len] == RemoveSpaces(old(a[..]))
  {
    ghost var original := a[..];
    len := 0;
    var i := 0;
    while i < a.Length
      invariant len <= i <= a.Length
      invariant a[..len] == RemoveSpaces(original[..i])
      invariant a[i..] == original[i..]
    {
      var c := a[i];
      assert c == original[i];
      assert original[..i + 1][..i] == original[..i];
      if !IsSpace(c) {
        a[len] := c;
        len := len + 1;
      }
      assert a[i + 1..] == original[i + 1..] by {
        forall j | i + 1 <= j < a.Length ensures a[j] == original[j] {
          assert a[j] == old(a[..])[j];
        }
      }
      i := i + 1;
    }
    assert original[..i] == original;
  }

  /** The first loop of `parseCharsString`: each item is cut at '-', a lone
      number is doubled, and both halves are cast to 16 bits; a failing
      cast aborts. */
  method ReadRanges(ranges: seq<string>) returns (charList: Option<seq<(nat, nat)>>)
    ensures charList == Bounds(ranges)
  {
    var pairs: seq<(nat, nat)> := [];
    for i := 0 to |ranges|
      invariant Bounds(ranges[..i]) == Some(pairs)
    {
      assert ranges[..i + 1][..i] == ranges[..i];
      var minMax := Split(ranges[i], '-');
      if |minMax| == 1 {
        minMax := minMax + [minMax[0]];
      }
      var first := CastU16(minMax[0]);
      var second := CastU16(minMax[1]);
      if first.None? || second.None? {
        BoundsFailureSticks(ranges, i + 1);
        return None;
      }
      pairs := pairs + [(first.value, second.value)];
    }
    assert ranges[..|ranges|] == ranges;
    return Some(pairs);
  }

  /** The nested loop of `parseCharsString`: for each pair, insert
      first <= v < second, then second. */
  method InsertRanges(charList: seq<(nat, nat)>) returns (result: set<nat>)
    ensures result == Expand(charList)
  {
    result := {};
    for i := 0 to |charList|
      invariant result == Expand(charList[..i])
    {
      assert charList[..i + 1][..i] == charList[..i];
      var (first, second) := charList[i];
      var v := first;
      while v < second
        invariant first <= v
        invariant v == first || v <= second
        invariant result == Expand(charList[..i]) + HalfOpen(first, v)
      {
        result := result + {v};
        v := v + 1;
      }
      if first < second {
        assert v == second;
      } else {
        assert HalfOpen(first, v) == {} == HalfOpen(first, second);
      }
      result := result + {second};
    }
    assert charList[..|charList|] == charList;
  }

  /** `helpers::parseCharsString`. */
  method ParseCharsString(str: string) returns (r: Result<set<nat>>)
    ensures r == ParseChars(str)
  {
    var buf := new char[|str|](i requires 0 <= i < |str| => str[i]);
    assert buf[..] == str;
    var len := EraseSpaces(buf);
    var s := buf[..len];
    if s == [] {
      return Ok({});
    }
    if !CharsSyntax(s) {
      return Err(InvalidCharsValue);
    }
    var ranges := Split(s, ',');
    var charList := ReadRanges(ranges);
    if charList.None? {
      return Err(CharsOutOfRange);
    }
    var result := InsertRanges(charList.value);
    return Ok(result);
  }

  /** Once a cast fails, the whole list fails. */
  lemma {:induction false} BoundsFailureSticks(ranges: seq<string>, n: nat)
    requires n <= |ranges| && Bounds(ranges[..n]).None?
    ensures Bounds(ranges).None?
    decreases |ranges| - n
  {
    if n < |ranges| {
      assert ranges[..n + 1][..n] == ranges[..n];
      BoundsFailureSticks(ranges, n + 1);
    } else {
      assert ranges[..n] == ranges;
    }
  }

  // ---------------------------------------------------------------------
  // Properties of the specification.

  /** Bounds succeeds exactly when every item's casts succeed, pair by pair. */
  lemma {:induction false} BoundsEach(ranges: seq<string>)
    ensures Bounds(ranges).Some? <==> forall i | 0 <= i < |ranges| :: ItemBounds(ranges[i]).Some?
    ensures Bounds(ranges).Some? ==>
      |Bounds(ranges).value| == |ranges| &&
      forall i | 0 <= i < |ranges| :: Bounds(ranges).value[i] == ItemBounds(ranges[i]).value
  {
    BoundsSucceed(ranges);
    if Bounds(ranges).Some? {
      BoundsPairs(ranges);
    }
  }

  lemma {:induction false} BoundsSucceed(ranges: seq<string>)
    ensures Bounds(ranges).Some? <==> forall i | 0 <= i < |ranges| :: ItemBounds(ranges[i]).Some?
  {
    if ranges != [] {
      var init := ranges[..|ranges| - 1];
      BoundsSucceed(init);
      assert forall i | 0 <= i < |init| :: init[i] == ranges[i];
    }
  }

  lemma {:induction false} BoundsPairs(ranges: seq<string>)
    requires Bounds(ranges).Some?
    ensures |Bounds(ranges).value| == |ranges|
    ensures forall i | 0 <= i < |ranges| :: ItemBounds(ranges[i]).Some?
    ensures forall i | 0 <= i < |ranges| :: Bounds(ranges).value[i] == ItemBounds(ranges[i]).value
  {
    BoundsSucceed(ranges);
    if ranges != [] {
      var init := ranges[..|ranges| - 1];
      BoundsPairs(init);
      assert forall i | 0 <= i < |init| :: init[i] == ranges[i];
    }
  }

  lemma {:induction false} ExpandAppend(p: seq<(nat, nat)>, q: seq<(nat, nat)>)
    ensures Expand(p + q) == Expand(p) + Expand(q)
  {
    if q == [] {
      assert p + q == p;
    } else {
      var q' := q[..|q| - 1];
      assert (p + q)[..|p + q| - 1] == p + q';
      ExpandAppend(p, q');
    }
  }

  /** What one item contributes: a..b when a <= b, only b when a > b. */
  lemma ItemSetMeaning(p: (nat, nat))
    ensures forall v: nat :: v in ItemSet(p) <==> if p.0 <= p.1 then p.0 <= v <= p.1 else v == p.1
  {
  }

  /** A text that is empty after stripping whitespace yields the empty set,
      and no other text does. */
  lemma ParseCharsEmptyIff(str: string)
    ensures ParseChars(str) == Ok({}) <==> AllSpaces(str)
  {
    RemoveSpacesEmpty(str);
    var s := RemoveSpaces(str);
    if s != [] && CharsSyntax(s) && Bounds(Split(s, ',')).Some? {
      var ranges := Split(s, ',');
      var ps := Bounds(ranges).value;
      BoundsEach(ranges);
      assert ps == ps[..|ps| - 1] + [ps[|ps| - 1]];
      assert ps[|ps| - 1].1 in Expand(ps);
    }
  }

  /** Whitespace anywhere in the text is ignored. */
  lemma ParseCharsIgnoresSpace(a: string, c: char, b: string)
    requires IsSpace(c)
    ensures ParseChars(a + [c] + b) == ParseChars(a + b)
  {
    RemoveSpacesAppend(a + [c], b);
    RemoveSpacesAppend(a, [c]);
    RemoveSpacesAppend(a, b);
    assert [c][..0] == [];
    assert RemoveSpaces([c]) == [];
    assert RemoveSpaces(a + [c]) == RemoveSpaces(a);
  }

  /** A non-blank text that the grammar refuses is "invalid chars value",
      and that is the only way to get that error. */
  lemma ParseCharsSyntaxError(str: string)
    ensures ParseChars(str) == Err(InvalidCharsValue) <==>
      RemoveSpaces(str) != [] && exists p | p in Split(RemoveSpaces(str), ',') :: !RangeItem(p)
  {
    CharsSyntaxSplit(RemoveSpaces(str));
  }

  /** A number too large for 16 bits, in an item cut at '-'. */
  predicate HasLargeNumber(p: string)
  {
    exists q | q in Split(p, '-') :: AllDigits(q) && DecimalValue(q) > 65535
  }

  /** A well-formed item's casts fail exactly when one of its numbers is above 65535. */
  lemma ItemBoundsFailure(p: string)
    requires RangeItem(p)
    ensures ItemBounds(p).None? <==> HasLargeNumber(p)
  {
    var mm := Split(p, '-');
    RangeItemSplit(p);
    var a, b := mm[0], mm[|mm| - 1];
    assert a in mm && b in mm;
    assert ItemBounds(p).None? <==> DecimalValue(a) > 65535 || DecimalValue(b) > 65535;
    if |mm| == 1 {
      assert mm == [a];
    } else {
      assert mm == [a, b];
    }
  }

  /** A text the grammar accepts fails with "out of range" exactly when one of
      its numbers exceeds 65535. */
  lemma ParseCharsOutOfRange(str: string)
    ensures ParseChars(str) == Err(CharsOutOfRange) <==>
      var s := RemoveSpaces(str);
      s != [] && CharsSyntax(s) && exists p | p in Split(s, ',') :: HasLargeNumber(p)
  {
    var s := RemoveSpaces(str);
    if s != [] && CharsSyntax(s) {
      var ranges := Split(s, ',');
      CharsSyntaxSplit(s);
      BoundsEach(ranges);
      if exists p | p in ranges :: HasLargeNumber(p) {
        var p :| p in ranges && HasLargeNumber(p);
        var i :| 0 <= i < |ranges| && ranges[i] == p;
        ItemBoundsFailure(p);
      }
      if Bounds(ranges).None? {
        var i :| 0 <= i < |ranges| && ItemBounds(ranges[i]).None?;
        assert ranges[i] in ranges;
        ItemBoundsFailure(ranges[i]);
      }
    }
  }

  lemma SeventyThousandValue()
    ensures AllDigits("70000") && DecimalValue("70000") == 70000
  {
    assert "70000"[..4] == "7000";
    assert "7000"[..3] == "700";
    assert "700"[..2] == "70";
    assert "70"[..1] == "7";
    assert "7"[..0] == "";
    assert DecimalValue("7") == 7;
    assert DecimalValue("70") == 70;
    assert DecimalValue("700") == 700;
    assert DecimalValue("7000") == 7000;
  }

  /** "70000" passes the grammar but not the 16-bit cast. */
  lemma SeventyThousandIsOutOfRange()
    ensures ParseChars("70000") == Err(CharsOutOfRange)
  {
    var s := "70000";
    RemoveSpacesNoSpaces(s);
    assert Number(s);
    assert CharsSyntax(s);
    NumberHasNoSeparator(s);
    SplitNoSeparator(s, ',');
    SplitNoSeparator(s, '-');
    SeventyThousandValue();
    assert HasLargeNumber(s) by { assert s in Split(s, '-'); }
    ParseCharsOutOfRange(s);
  }

  /** The list made of the one item s. */
  lemma SingleItem(s: string, p: (nat, nat))
    requires ItemBounds(s) == Some(p)
    ensures Bounds([s]) == Some([p])
    ensures Expand([p]) == ItemSet(p)
  {
    assert [s][..0] == [];
    assert Bounds([s][..0]) == Some([]);
    assert [s][|[s]| - 1] == s;
    assert [] + [p] == [p];
    assert [p][..0] == [];
  }

  /** A lone number t, written with any number of leading zeros, contributes
      exactly its value. */
  lemma ParseCharsSingle(t: string)
    requires Number(t) && DecimalValue(t) <= 65535
    ensures ParseChars(t) == Ok({DecimalValue(t)})
  {
    var n := DecimalValue(t);
    NumberText(t);
    SingleItem(t, (n, n));
    assert ParseChars(t) == Ok(ItemSet((n, n)));
    LoneItemSet(n);
  }

  lemma LoneItemSet(n: nat)
    ensures ItemSet((n, n)) == {n}
  {
    assert HalfOpen(n, n) == {};
  }

  /** A number holds no blank and no separator. */
  lemma NumberIsPlain(t: string)
    requires Number(t)
    ensures ',' !in t && '-' !in t
    ensures forall i | 0 <= i < |t| :: !IsSpace(t[i])
  {
    NumberHasNoSeparator(t);
    forall i | 0 <= i < |t| ensures !IsSpace(t[i]) {
      assert IsDigit(t[i]);
    }
  }

  /** The text of a lone 16-bit number: one item whose casts give its value twice. */
  lemma NumberText(t: string)
    requires Number(t) && DecimalValue(t) <= 65535
    ensures RemoveSpaces(t) == t && t != [] && CharsSyntax(t) && Split(t, ',') == [t] &&
      ItemBounds(t) == Some((DecimalValue(t), DecimalValue(t)))
  {
    NumberIsPlain(t);
    RemoveSpacesNoSpaces(t);
    assert RangeItem(t);
    SplitNoSeparator(t, ',');
    SplitNoSeparator(t, '-');
    var n := DecimalValue(t);
    assert CastU16(t) == Some(n);
    assert ItemBounds(t) == Some((n, n));
  }

  /** The text "a-b" for two 16-bit numbers: one item, cut at '-' into the two numbers. */
  lemma RangeText(ta: string, tb: string)
    requires Number(ta) && DecimalValue(ta) <= 65535
    requires Number(tb) && DecimalValue(tb) <= 65535
    ensures var s := ta + "-" + tb;
      RemoveSpaces(s) == s && s != [] && CharsSyntax(s) && Split(s, ',') == [s] &&
      ItemBounds(s) == Some((DecimalValue(ta), DecimalValue(tb)))
  {
    var s := ta + "-" + tb;
    NumberIsPlain(ta);
    NumberIsPlain(tb);
    assert s[..|ta|] == ta && s[|ta| + 1..] == tb && s[|ta|] == '-';
    forall i | 0 <= i < |s| ensures !IsSpace(s[i]) && s[i] != ',' {
      if i < |ta| { assert s[i] == ta[i]; } else if i > |ta| { assert s[i] == tb[i - |ta| - 1]; }
    }
    RemoveSpacesNoSpaces(s);
    assert RangeItem(s);
    SplitNoSeparator(s, ',');
    SplitAtDash(s, |ta|);
  }

  /** Item "a-b", with any leading zeros, contributes a..b inclusive when
      a <= b, and only b when a > b. */
  lemma ParseCharsRange(ta: string, tb: string)
    requires Number(ta) && DecimalValue(ta) <= 65535
    requires Number(tb) && DecimalValue(tb) <= 65535
    ensures var a, b := DecimalValue(ta), DecimalValue(tb);
      var r := ParseChars(ta + "-" + tb);
      r.Ok? && forall v: nat :: v in r.value <==> if a <= b then a <= v <= b else v == b
  {
    var a, b := DecimalValue(ta), DecimalValue(tb);
    var s := ta + "-" + tb;
    RangeText(ta, tb);
    SingleItem(s, (a, b));
    assert ParseChars(s) == Ok(ItemSet((a, b)));
    ItemSetMeaning((a, b));
  }

  /** Leading zeros do not matter: "0065" is the character 65 ... */
  lemma LeadingZerosSingle()
    ensures ParseChars("0065") == Ok({65})
  {
    ZeroPaddedValues();
    ParseCharsSingle("0065");
  }

  /** ... and "032-064" is 32 to 64. */
  lemma LeadingZerosRange()
    ensures ParseChars("032-064").Ok? && forall v: nat :: v in ParseChars("032-064").value <==> 32 <= v <= 64
  {
    ZeroPaddedValues();
    ParseCharsRange("032", "064");
    assert "032" + "-" + "064" == "032-064";
  }

  lemma ZeroPaddedValues()
    ensures Number("0065") && DecimalValue("0065") == 65
    ensures Number("032") && DecimalValue("032") == 32
    ensures Number("064") && DecimalValue("064") == 64
  {
    assert "0065"[..3] == "006" && "006"[..2] == "00" && "00"[..1] == "0" && "0"[..0] == "";
    assert "032"[..2] == "03" && "03"[..1] == "0";
    assert "064"[..2] == "06" && "06"[..1] == "0";
  }

  /** Stripping "x,y" strips both sides, and its pieces are those of x then those of y. */
  lemma JoinedList(x: string, y: string)
    ensures RemoveSpaces(x + "," + y) == RemoveSpaces(x) + [','] + RemoveSpaces(y)
    ensures Split(RemoveSpaces(x + "," + y), ',') == Split(RemoveSpaces(x), ',') + Split(RemoveSpaces(y), ',')
  {
    RemoveSpacesAppend(x + ",", y);
    RemoveSpacesAppend(x, ",");
    assert ","[..0] == [];
    assert RemoveSpaces(",") == [','];
    SplitAppend(RemoveSpaces(x), ',', RemoveSpaces(y));
  }

  /** "x,y" is well formed exactly when x and y are. */
  lemma JoinedSyntax(x: string, y: string)
    ensures var s := RemoveSpaces(x + "," + y);
      CharsSyntax(s) <==> CharsSyntax(RemoveSpaces(x)) && CharsSyntax(RemoveSpaces(y))
  {
    JoinedList(x, y);
    var sx, sy := RemoveSpaces(x), RemoveSpaces(y);
    CharsSyntaxSplit(sx);
    CharsSyntaxSplit(sy);
    CharsSyntaxSplit(RemoveSpaces(x + "," + y));
  }

  /** The casts of "x,y" succeed exactly when those of x and of y do, and
      then give the pairs of x followed by those of y. */
  lemma JoinedBounds(rx: seq<string>, ry: seq<string>)
    ensures Bounds(rx + ry).Some? <==> Bounds(rx).Some? && Bounds(ry).Some?
    ensures Bounds(rx).Some? && Bounds(ry).Some? ==>
      Bounds(rx + ry) == Some(Bounds(rx).value + Bounds(ry).value)
  {
    JoinedBoundsSucceed(rx, ry);
    if Bounds(rx).Some? && Bounds(ry).Some? {
      JoinedBoundsPairs(rx, ry);
    }
  }

  lemma JoinedBoundsSucceed(rx: seq<string>, ry: seq<string>)
    ensures Bounds(rx + ry).Some? <==> Bounds(rx).Some? && Bounds(ry).Some?
  {
    BoundsEach(rx);
    BoundsEach(ry);
    BoundsEach(rx + ry);
    assert forall i | 0 <= i < |rx| :: (rx + ry)[i] == rx[i];
    assert forall i | 0 <= i < |ry| :: (rx + ry)[|rx| + i] == ry[i];
  }

  lemma JoinedBoundsPairs(rx: seq<string>, ry: seq<string>)
    requires Bounds(rx).Some? && Bounds(ry).Some? && Bounds(rx + ry).Some?
    ensures Bounds(rx + ry).value == Bounds(rx).value + Bounds(ry).value
  {
    BoundsEach(rx);
    BoundsEach(ry);
    BoundsEach(rx + ry);
    var pxy, px, py := Bounds(rx + ry).value, Bounds(rx).value, Bounds(ry).value;
    forall i | 0 <= i < |pxy| ensures pxy[i] == (px + py)[i] {
      if i < |rx| { assert (rx + ry)[i] == rx[i]; } else { assert (rx + ry)[i] == ry[i - |rx|]; }
    }
  }

  /** How the results for two lists combine when they are joined with a
      comma: the union of the sets, a grammar error before a range error. */
  function CombineLists(a: Result<set<nat>>, b: Result<set<nat>>): Result<set<nat>>
  {
    if a.Ok? && b.Ok? then Ok(a.value + b.value)
    else if a == Err(InvalidCharsValue) || b == Err(InvalidCharsValue) then Err(InvalidCharsValue)
    else Err(CharsOutOfRange)
  }

  /** The items of a list are independent: the result for "x,y" combines the
      results for x and y. */
  lemma ParseCharsUnion(x: string, y: string)
    requires RemoveSpaces(x) != [] && RemoveSpaces(y) != []
    ensures ParseChars(x + "," + y) == CombineLists(ParseChars(x), ParseChars(y))
  {
    var sx, sy := RemoveSpaces(x), RemoveSpaces(y);
    JoinedList(x, y);
    JoinedSyntax(x, y);
    var rx, ry := Split(sx, ','), Split(sy, ',');
    JoinedBounds(rx, ry);
    if Bounds(rx).Some? && Bounds(ry).Some? {
      ExpandAppend(Bounds(rx).value, Bounds(ry).value);
    }
  }

  /** The order of the items does not matter. */
  lemma ParseCharsCommutes(x: string, y: string)
    requires RemoveSpaces(x) != [] && RemoveSpaces(y) != []
    ensures ParseChars(x + "," + y) == ParseChars(y + "," + x)
  {
    ParseCharsUnion(x, y);
    ParseCharsUnion(y, x);
    CombineListsCommutes(ParseChars(x), ParseChars(y));
  }

  lemma CombineListsCommutes(a: Result<set<nat>>, b: Result<set<nat>>)
    ensures CombineLists(a, b) == CombineLists(b, a)
  {
    if a.Ok? && b.Ok? {
      assert a.value + b.value == b.value + a.value;
    }
  }

  /** Repeating a list changes nothing. */
  lemma ParseCharsDuplicate(x: string)
    requires RemoveSpaces(x) != []
    ensures ParseChars(x + "," + x) == ParseChars(x)
  {
    ParseCharsUnion(x, x);
    var a := ParseChars(x);
    if a.Ok? {
      assert a.value + a.value == a.value;
    }
  }
}
