/**
 * The entity extractor: folds the NLP service's `{entity, value}` tuples into
 * one record `{amount, item, persons}`, and parses an amount either from a
 * small table of spelled-out numbers or from the first run of digits.
 */
module EntityExtractor {
  import opened Wrappers
  import opened Text

  /** One tuple of the NLP response: its tag and its raw text. */
  datatype RawEntity = RawEntity(entity: string, value: string)

  /** The normalised record the extractor returns. */
  datatype Extracted = Extracted(amount: Option<real>, item: Option<string>, persons: seq<string>)

  const AmountTag: string := "AMOUNT"
  const ItemTag: string := "ITEM"
  const PersonTag: string := "PERSON"

  /** The record returned for a missing or empty tuple list. */
  const NothingExtracted: Extracted := Extracted(None, None, [])

  /**
   * The table of spelled-out numbers `parseAmount` recognises, looked up by
   * lower-case spelling. Every value is positive, so the source's truthiness
   * test on the looked-up value succeeds exactly for the twelve words.
   */
  function WrittenNumber(word: string): (r: Option<nat>)
    ensures r.Some? ==> r.value > 0
  {
    match word
    case "one" => Some(1)
    case "two" => Some(2)
    case "three" => Some(3)
    case "four" => Some(4)
    case "five" => Some(5)
    case "six" => Some(6)
    case "seven" => Some(7)
    case "eight" => Some(8)
    case "nine" => Some(9)
    case "ten" => Some(10)
    case "hundred" => Some(100)
    case "thousand" => Some(1000)
    case _ => None
  }

  /** No table word contains a digit. */
  lemma NoTableWordHasDigits(w: string)
    requires !NoDigits(w)
    ensures WrittenNumber(w) == None
  {
  }

  /** Lower-casing keeps digits, so a string holding a digit is never a table word. */
  lemma TableWordsHaveNoDigits(s: string)
    requires !NoDigits(s)
    ensures WrittenNumber(Lower(s)) == None
  {
    var i :| 0 <= i < |s| && IsDigit(s[i]);
    assert IsDigit(Lower(s)[i]);
    NoTableWordHasDigits(Lower(s));
  }

  // ---------------------------------------------------------------------------
  // The scan for the regular expression \d+(\.\d+)?
  // ---------------------------------------------------------------------------

  /** The index of the first digit at or after `from`, or |s| if there is none. */
  function FirstDigit(s: string, from: nat): (i: nat)
    requires from <= |s|
    ensures from <= i <= |s|
    ensures forall k :: from <= k < i ==> !IsDigit(s[k])
    ensures i < |s| ==> IsDigit(s[i])
    decreases |s| - from
  {
    if from == |s| || IsDigit(s[from]) then from else FirstDigit(s, from + 1)
  }

  /** The end of the maximal run of digits that starts at `from`. */
  function RunEnd(s: string, from: nat): (j: nat)
    requires from <= |s|
    ensures from <= j <= |s|
    ensures forall k :: from <= k < j ==> IsDigit(s[k])
    ensures j < |s| ==> !IsDigit(s[j])
    decreases |s| - from
  {
    if from == |s| || !IsDigit(s[from]) then from else RunEnd(s, from + 1)
  }

  /** A match of \d+(\.\d+)?: its whole-number digits and its fraction digits (empty when absent). */
  datatype NumberMatch = NumberMatch(whole: string, fraction: string)

  /** The fraction digits of a match whose whole part ends at `j`: a dot and at least one digit, or nothing. */
  function FractionAt(s: string, j: nat): (f: string)
    requires j <= |s|
    ensures AllDigits(f)
    ensures f != "" <==> j + 1 < |s| && s[j] == '.' && IsDigit(s[j + 1])
    ensures f != "" ==> j + 1 + |f| <= |s| && s[j + 1..j + 1 + |f|] == f && (j + 1 + |f| == |s| || !IsDigit(s[j + 1 + |f|]))
  {
    if j + 1 < |s| && s[j] == '.' && IsDigit(s[j + 1]) then s[j + 1..RunEnd(s, j + 1)] else ""
  }

  /** The match of \d+(\.\d+)? that starts at the digit `s[i]`; greedy, so the digit run is maximal. */
  function MatchAt(s: string, i: nat): (m: NumberMatch)
    requires i < |s| && IsDigit(s[i])
    ensures |m.whole| > 0 && AllDigits(m.whole) && AllDigits(m.fraction)
  {
    NumberMatch(s[i..RunEnd(s, i)], FractionAt(s, RunEnd(s, i)))
  }

  /**
   * The leftmost match of \d+(\.\d+)? in `s`: it starts at the first digit,
   * takes the maximal digit run, and takes `.` and the following maximal run
   * only when at least one digit follows the dot.
   */
  function MatchNumber(s: string): (m: Option<NumberMatch>)
    ensures m.None? <==> NoDigits(s)
    ensures m.Some? ==> |m.value.whole| > 0 && AllDigits(m.value.whole) && AllDigits(m.value.fraction)
  {
    var i := FirstDigit(s, 0);
    if i == |s| then None else Some(MatchAt(s, i))
  }

  /** The value of the digits after a decimal point: 0.d1d2d3... */
  function FractionValue(ds: string): (r: real)
    requires AllDigits(ds)
    ensures 0.0 <= r < 1.0
  {
    if ds == [] then 0.0 else (DigitValue(ds[0]) as real + FractionValue(ds[1..])) / 10.0
  }

  /** `parseFloat` of a matched number. */
  function MatchValue(m: NumberMatch): (r: real)
    requires AllDigits(m.whole) && AllDigits(m.fraction)
    ensures NatValue(m.whole) as real <= r < NatValue(m.whole) as real + 1.0
    ensures m.fraction == [] ==> r == NatValue(m.whole) as real
  {
    NatValue(m.whole) as real + FractionValue(m.fraction)
  }

  /**
   * `parseAmount`: absent for the empty string; the table value when the
   * lower-cased string is a table word; otherwise the value of the leftmost
   * number match; absent when the string holds no digit.
   */
  function ParseAmount(s: string): (r: Option<real>)
    ensures r.Some? ==> r.value >= 0.0
    ensures s == "" ==> r == None
    ensures WrittenNumber(Lower(s)).Some? ==> r == Some(WrittenNumber(Lower(s)).value as real)
    ensures r.None? <==> s == "" || (WrittenNumber(Lower(s)).None? && NoDigits(s))
  {
    if s == "" then None
    else if WrittenNumber(Lower(s)).Some? then Some(WrittenNumber(Lower(s)).value as real)
    else
      match MatchNumber(s)
      case None => None
      case Some(m) => Some(MatchValue(m))
  }

  /** For a string holding a digit, the amount is the value of the leftmost number match. */
  lemma ParseWithDigits(s: string)
    requires !NoDigits(s)
    ensures MatchNumber(s).Some? && ParseAmount(s) == Some(MatchValue(MatchNumber(s).value))
  {
    TableWordsHaveNoDigits(s);
  }

  /** Parsing the decimal rendering of a natural number gives that number. */
  lemma ParseDecimal(n: nat)
    ensures ParseAmount(DecimalString(n)) == Some(n as real)
  {
    ParseAllDigits(DecimalString(n));
    NatValueOfDecimal(n);
  }

  /** A string of digits only is read as the number it denotes. */
  lemma ParseAllDigits(d: string)
    requires d != [] && AllDigits(d)
    ensures ParseAmount(d) == Some(NatValue(d) as real)
  {
    assert IsDigit(d[0]);
    ParseWithDigits(d);
    assert FirstDigit(d, 0) == 0;
    assert RunEnd(d, 0) == |d|;
    assert d[0..|d|] == d;
  }

  /** The digit run at the start of `a + b` is exactly `a` when `b` does not start with a digit. */
  lemma RunOver(a: string, b: string)
    requires AllDigits(a) && (b == [] || !IsDigit(b[0]))
    ensures RunEnd(a + b, 0) == |a|
  {
    var t := a + b;
    assert forall k :: 0 <= k < |a| ==> t[k] == a[k];
    assert |a| < |t| ==> t[|a|] == b[0];
  }

  /** In `d.f`, with digit runs `d` and `f`, the number match is `d` with fraction `f`. */
  lemma MatchDecimalWithFraction(d: string, f: string)
    requires d != [] && AllDigits(d) && f != [] && AllDigits(f)
    ensures MatchNumber(d + "." + f) == Some(NumberMatch(d, f))
  {
    var s := d + "." + f;
    assert s == d + ("." + f);
    assert IsDigit(s[0]);
    RunOver(d, "." + f);
    assert s[0..|d|] == d;
    assert s[|d|] == '.' && s[|d| + 1] == f[0];
    RunOver(f, []);
    assert f + [] == f;
    RunEndShift(d + ".", f, 0);
    assert s[|d| + 1..|s|] == f;
  }

  /** Parsing `d.f`, with digit runs `d` and `f`, gives the value of `d` plus 0.f. */
  lemma ParseDigitsWithFraction(d: string, f: string)
    requires d != [] && AllDigits(d) && f != [] && AllDigits(f)
    ensures ParseAmount(d + "." + f) == Some(NatValue(d) as real + FractionValue(f))
  {
    var s := d + "." + f;
    assert IsDigit(s[0]);
    ParseWithDigits(s);
    MatchDecimalWithFraction(d, f);
  }

  /**
   * A digit run `d` followed by text that does not continue it with a digit
   * or with a dot and a digit is read as the number `d` denotes.
   */
  lemma ParseDigitsWithoutFraction(d: string, t: string)
    requires d != [] && AllDigits(d)
    requires t == [] || (!IsDigit(t[0]) && !(|t| >= 2 && t[0] == '.' && IsDigit(t[1])))
    ensures ParseAmount(d + t) == Some(NatValue(d) as real)
  {
    var s := d + t;
    assert IsDigit(s[0]);
    ParseWithDigits(s);
    assert FirstDigit(s, 0) == 0;
    RunOver(d, t);
    assert s[0..|d|] == d;
    if |d| + 1 < |s| {
      assert s[|d|] == t[0] && s[|d| + 1] == t[1];
    }
    assert FractionAt(s, |d|) == "";
  }

  /** Scanning from inside a digit-free prefix skips that prefix. */
  lemma {:induction false} FirstDigitSkipsPrefix(p: string, s: string, from: nat)
    requires from <= |p| && NoDigits(p)
    ensures FirstDigit(p + s, from) == |p| + FirstDigit(s, 0)
    decreases |p| - from
  {
    if from < |p| {
      FirstDigitSkipsPrefix(p, s, from + 1);
    } else {
      FirstDigitShift(p, s, 0);
    }
  }

  /** A scan of `p + s` from inside `s` is the scan of `s`, shifted by |p|. */
  lemma {:induction false} FirstDigitShift(p: string, s: string, from: nat)
    requires from <= |s|
    ensures FirstDigit(p + s, |p| + from) == |p| + FirstDigit(s, from)
    decreases |s| - from
  {
    if from < |s| && !IsDigit(s[from]) {
      FirstDigitShift(p, s, from + 1);
    }
  }

  /** A run in `p + s` that starts inside `s` is the run in `s`, shifted by |p|. */
  lemma {:induction false} RunEndShift(p: string, s: string, from: nat)
    requires from <= |s|
    ensures RunEnd(p + s, |p| + from) == |p| + RunEnd(s, from)
    decreases |s| - from
  {
    if from < |s| && IsDigit(s[from]) {
      RunEndShift(p, s, from + 1);
    }
  }

  /** The fraction after a position inside `s` is the same in `p + s`. */
  lemma FractionShift(p: string, s: string, j: nat)
    requires j <= |s|
    ensures FractionAt(p + s, |p| + j) == FractionAt(s, j)
  {
    var t := p + s;
    if j + 1 < |s| && s[j] == '.' && IsDigit(s[j + 1]) {
      assert t[|p| + j] == '.' && t[|p| + j + 1] == s[j + 1];
      RunEndShift(p, s, j + 1);
      assert t[|p| + j + 1..|p| + RunEnd(s, j + 1)] == s[j + 1..RunEnd(s, j + 1)];
    } else if |p| + j + 1 < |t| {
      assert t[|p| + j] == s[j] && t[|p| + j + 1] == s[j + 1];
    }
  }

  /** A match that starts inside `s` is the same in `p + s`. */
  lemma MatchAtShift(p: string, s: string, i: nat)
    requires i < |s| && IsDigit(s[i])
    ensures (p + s)[|p| + i] == s[i]
    ensures MatchAt(p + s, |p| + i) == MatchAt(s, i)
  {
    var t := p + s;
    RunEndShift(p, s, i);
    var j := RunEnd(s, i);
    assert t[|p| + i..|p| + j] == s[i..j];
    FractionShift(p, s, j);
  }

  /** The leftmost number match in `p + s` is the one in `s` when `p` holds no digit. */
  lemma MatchIgnoresLeadingText(p: string, s: string)
    requires NoDigits(p) && !NoDigits(s)
    ensures MatchNumber(p + s) == MatchNumber(s)
  {
    FirstDigitSkipsPrefix(p, s, 0);
    MatchAtShift(p, s, FirstDigit(s, 0));
  }

  /** Text before the first digit never changes the parsed amount. */
  lemma ParseIgnoresLeadingText(p: string, s: string)
    requires NoDigits(p) && !NoDigits(s)
    ensures ParseAmount(p + s) == ParseAmount(s)
  {
    var i :| 0 <= i < |s| && IsDigit(s[i]);
    assert IsDigit((p + s)[|p| + i]);
    ParseWithDigits(s);
    ParseWithDigits(p + s);
    MatchIgnoresLeadingText(p, s);
  }

  /** A string whose lower case is the table word `w` parses to that word's value. */
  lemma ParseWord(s: string, w: string)
    requires Lower(s) == w && WrittenNumber(w).Some?
    ensures ParseAmount(s) == Some(WrittenNumber(w).value as real)
  {
  }

  /** Spelled-out numbers are matched without regard to case: "Five" is 5. */
  lemma ParseFiveExample()
    ensures ParseAmount("Five") == Some(5.0)
  {
    assert Lower("Five") == "five";
    ParseWord("Five", "five");
  }

  /** "THOUSAND" is 1000. */
  lemma ParseThousandExample()
    ensures ParseAmount("THOUSAND") == Some(1000.0)
  {
    assert Lower("THOUSAND") == "thousand";
    ParseWord("THOUSAND", "thousand");
  }

  /** "12.5x" parses to 12.5: the digit run, the dot and the following digit run. */
  lemma ParseDecimalExample()
    ensures ParseAmount("12.5x") == Some(12.5)
  {
    var s := "12.5x";
    assert FirstDigit(s, 0) == 0;
    assert RunEnd(s, 0) == 2;
    assert s[0..2] == "12";
    assert RunEnd(s, 3) == 4;
    assert FractionAt(s, 2) == "5";
    assert MatchNumber(s) == Some(NumberMatch("12", "5"));
    assert NatValue("12") == 12;
    assert FractionValue("5") == 0.5;
    ParseWithDigits(s);
  }

  /** "abc" before "12.5x" is skipped by the digit scan. */
  lemma FractionExampleWithPrefix(p: string, s: string)
    requires p == "abc" && s == "12.5x"
    ensures ParseAmount(p + s) == Some(12.5)
  {
    ParseDecimalExample();
    assert IsDigit(s[0]);
    ParseIgnoresLeadingText(p, s);
  }

  /** The digit scan skips leading text and takes the fraction after a dot. */
  lemma ParseFractionExample()
    ensures ParseAmount("abc12.5x") == Some(12.5)
  {
    FractionExampleWithPrefix("abc", "12.5x");
    assert "abc" + "12.5x" == "abc12.5x";
  }

  /** A dot with no digit after it is not part of the number. */
  lemma ParseTrailingDotExample()
    ensures ParseAmount("1.") == Some(1.0)
  {
    var s := "1.";
    assert FirstDigit(s, 0) == 0;
    assert RunEnd(s, 0) == 1;
    assert s[0..1] == "1";
    assert FractionAt(s, 1) == "";
    assert IsDigit(s[0]);
    ParseWithDigits(s);
  }

  /** A minus sign is not part of the number, so the amount is never negative. */
  lemma ParseSignExample()
    ensures ParseAmount("-7") == Some(7.0)
  {
    var s := "-7";
    assert FirstDigit(s, 0) == 1;
    assert RunEnd(s, 1) == 2;
    assert s[1..2] == "7";
    assert FractionAt(s, 2) == "";
    assert IsDigit(s[1]);
    ParseWithDigits(s);
  }

  // ---------------------------------------------------------------------------
  // Folding the tuples
  // ---------------------------------------------------------------------------

  /** `entities.find(e => e.entity === tag)`: the first tuple with that tag. */
  function Find(es: seq<RawEntity>, tag: string): (r: Option<RawEntity>)
    ensures r.None? <==> forall i :: 0 <= i < |es| ==> es[i].entity != tag
    ensures r.Some? ==> r.value in es && r.value.entity == tag
  {
    if es == [] then None
    else if es[0].entity == tag then Some(es[0])
    else Find(es[1..], tag)
  }

  /** `entities.filter(e => e.entity === tag).map(e => e.value)`. */
  function Values(es: seq<RawEntity>, tag: string): (r: seq<string>)
    ensures |r| <= |es|
    ensures forall v :: v in r ==> RawEntity(tag, v) in es
  {
    if es == [] then []
    else (if es[0].entity == tag then [es[0].value] else []) + Values(es[1..], tag)
  }

  /** `extractEntities`: the first AMOUNT parsed, the first ITEM verbatim, every PERSON in order. */
  function ExtractEntities(entities: Option<seq<RawEntity>>): (r: Extracted)
    ensures entities.None? || entities.value == [] ==> r == NothingExtracted
  {
    if entities.None? || |entities.value| == 0 then NothingExtracted
    else
      var es := entities.value;
      var amount := match Find(es, AmountTag) case None => None case Some(e) => ParseAmount(e.value);
      var item := match Find(es, ItemTag) case None => None case Some(e) => Some(e.value);
      Extracted(amount, item, Values(es, PersonTag))
  }

  /** The first tuple with a tag is found before anything in the tail. */
  lemma {:induction false} FindAppend(a: seq<RawEntity>, b: seq<RawEntity>, tag: string)
    ensures Find(a + b, tag) == if Find(a, tag).Some? then Find(a, tag) else Find(b, tag)
  {
    if a != [] {
      assert (a + b)[0] == a[0];
      assert (a + b)[1..] == a[1..] + b;
      FindAppend(a[1..], b, tag);
    } else {
      assert a + b == b;
    }
  }

  /** Filtering distributes over concatenation. */
  lemma {:induction false} ValuesAppend(a: seq<RawEntity>, b: seq<RawEntity>, tag: string)
    ensures Values(a + b, tag) == Values(a, tag) + Values(b, tag)
  {
    if a != [] {
      assert (a + b)[0] == a[0];
      assert (a + b)[1..] == a[1..] + b;
      ValuesAppend(a[1..], b, tag);
    } else {
      assert a + b == b;
    }
  }

  /**
   * Only the first AMOUNT tuple is parsed: when it does not parse, the amount
   * is absent whatever later AMOUNT tuples hold.
   */
  lemma AmountFromFirstOnly(before: seq<RawEntity>, v: string, after: seq<RawEntity>)
    requires forall i :: 0 <= i < |before| ==> before[i].entity != AmountTag
    ensures ExtractEntities(Some(before + [RawEntity(AmountTag, v)] + after)).amount == ParseAmount(v)
  {
    FindAppend(before, [RawEntity(AmountTag, v)] + after, AmountTag);
    assert before + [RawEntity(AmountTag, v)] + after == before + ([RawEntity(AmountTag, v)] + after);
  }

  /** The item is the value of the first ITEM tuple, verbatim. */
  lemma ItemFromFirstOnly(before: seq<RawEntity>, v: string, after: seq<RawEntity>)
    requires forall i :: 0 <= i < |before| ==> before[i].entity != ItemTag
    ensures ExtractEntities(Some(before + [RawEntity(ItemTag, v)] + after)).item == Some(v)
  {
    FindAppend(before, [RawEntity(ItemTag, v)] + after, ItemTag);
    assert before + [RawEntity(ItemTag, v)] + after == before + ([RawEntity(ItemTag, v)] + after);
  }

  /** Without an ITEM tuple the item is absent; without an AMOUNT tuple the amount is absent. */
  lemma MissingTagsGiveNothing(es: seq<RawEntity>)
    ensures (forall i :: 0 <= i < |es| ==> es[i].entity != ItemTag) ==> ExtractEntities(Some(es)).item == None
    ensures (forall i :: 0 <= i < |es| ==> es[i].entity != AmountTag) ==> ExtractEntities(Some(es)).amount == None
  {
  }

  /**
   * The persons of a concatenation are the persons of each part in order:
   * every PERSON value, in input order, duplicates kept.
   */
  lemma PersonsInOrder(a: seq<RawEntity>, b: seq<RawEntity>)
    ensures ExtractEntities(Some(a + b)).persons
         == ExtractEntities(Some(a)).persons + ExtractEntities(Some(b)).persons
  {
    ValuesAppend(a, b, PersonTag);
  }

  /** A single PERSON tuple contributes exactly its value. */
  lemma OnePerson(v: string)
    ensures ExtractEntities(Some([RawEntity(PersonTag, v)])).persons == [v]
  {
  }

  /** A tuple with another tag does not change which tuple is found first. */
  lemma FindSkipsOtherTag(before: seq<RawEntity>, e: RawEntity, after: seq<RawEntity>, tag: string)
    requires e.entity != tag
    ensures Find(before + [e] + after, tag) == Find(before + after, tag)
  {
    assert before + [e] + after == before + ([e] + after);
    FindAppend(before, [e] + after, tag);
    FindAppend([e], after, tag);
    FindAppend(before, after, tag);
  }

  /** A tuple with another tag contributes no value. */
  lemma ValuesSkipOtherTag(before: seq<RawEntity>, e: RawEntity, after: seq<RawEntity>, tag: string)
    requires e.entity != tag
    ensures Values(before + [e] + after, tag) == Values(before + after, tag)
  {
    assert before + [e] + after == before + ([e] + after);
    ValuesAppend(before, [e] + after, tag);
    ValuesAppend([e], after, tag);
    ValuesAppend(before, after, tag);
  }

  /** A tuple whose tag is none of AMOUNT, ITEM, PERSON changes no field of the result. */
  lemma OtherTagsIgnored(before: seq<RawEntity>, e: RawEntity, after: seq<RawEntity>)
    requires e.entity != AmountTag && e.entity != ItemTag && e.entity != PersonTag
    ensures ExtractEntities(Some(before + [e] + after)) == ExtractEntities(Some(before + after))
  {
    FindSkipsOtherTag(before, e, after, AmountTag);
    FindSkipsOtherTag(before, e, after, ItemTag);
    ValuesSkipOtherTag(before, e, after, PersonTag);
    if before + after == [] {
      assert before + [e] + after == [e];
    }
  }

  /** An amount, an item and a person tuple give the parsed amount, the item and the one person. */
  lemma ExtractThree(a: string, i: string, p: string)
    ensures ExtractEntities(Some([RawEntity(AmountTag, a), RawEntity(ItemTag, i), RawEntity(PersonTag, p)]))
         == Extracted(ParseAmount(a), Some(i), [p])
  {
    var es := [RawEntity(AmountTag, a), RawEntity(ItemTag, i), RawEntity(PersonTag, p)];
    assert Find(es, AmountTag) == Some(es[0]);
    assert es[1..][0] == es[1];
    assert Find(es, ItemTag) == Some(es[1]);
    var tail := es[1..][1..];
    assert tail == [es[2]] && tail[1..] == [];
    assert Values(tail, PersonTag) == [p];
    assert Values(es[1..], PersonTag) == [p];
  }

  /** The tuple list of a typical shared-expense message. */
  lemma ExtractExample()
    ensures ExtractEntities(Some([RawEntity(AmountTag, "500"), RawEntity(ItemTag, "groceries"),
                                  RawEntity(PersonTag, "Kamal")]))
         == Extracted(Some(500.0), Some("groceries"), ["Kamal"])
  {
    ExtractThree("500", "groceries", "Kamal");
    FiveHundred("500");
  }

  lemma FiveHundred(d: string)
    requires d == "500"
    ensures ParseAmount(d) == Some(500.0)
  {
    assert AllDigits(d);
    ParseAllDigits(d);
    assert d[..|d| - 1] == "50" && d[|d| - 1] == '0';
    assert d[..|d| - 1][..1] == "5";
    assert NatValue("5") == 5;
    assert NatValue("50") == 50;
  }
}
