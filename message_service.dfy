/**
 * The reply texts: the fixed onboarding messages and the numbered listing of
 * a user's trackable items.
 */
module MessageService {
  import opened Wrappers
  import opened Text

  /** The welcome text sent to a user who has not been onboarded yet. */
  const WelcomeText: string :=
    "\n\U{1F44B} Welcome to TrustLedger!\n"
    + "\n"
    + "I'm your personal bot to help you track your daily and shared expenses.\n"
    + "\n"
    + "Here's how it works:\n"
    + "1\U{FE0F}\U{20E3} Add items you want to track (e.g., \"add item: Coffee\").\n"
    + "2\U{FE0F}\U{20E3} Log expenses using simple messages (e.g., \"spent 150 on lunch\").\n"
    + "3\U{FE0F}\U{20E3} Share expenses with friends (e.g., \"shared a 300 taxi with Kamal\").\n"
    + "\n"
    + "By continuing, you accept our Terms & Conditions. Let's get started!\n"
    + "\U{1F4A5} Send yes to begin!\n"
    + "  "

  /** The text confirming that an account is now active. */
  const SuccessText: string :=
    "\n\U{2705} Great! Your account is now active.\n"
    + "\n"
    + "You can start by adding an item to track, like this:\n"
    + "*add item: Groceries*\n"
    + "\n"
    + "Or log your first expense:\n"
    + "*spent 500 on Groceries*\n"
    + "  "

  /** The reply for a user without trackable items. */
  const NoItemsText: string := "You haven't added any items to track yet. " + "Try starting with:\n*add item*"

  /** The first line of a non-empty item listing, followed by a blank line. */
  const ItemsHeader: string := "Here are your current trackable items:\n\n"

  /** `getOnboardingMessage`: the welcome text, whatever the phone number. */
  function GetOnboardingMessage(phoneNumber: string): (r: string)
    ensures r == WelcomeText
  {
    WelcomeText
  }

  /** `getOnboardingSuccessMessage`: the activation text. */
  function GetOnboardingSuccessMessage(): (r: string)
    ensures r == SuccessText
  {
    SuccessText
  }

  /** The phone number never shows in the welcome text: every recipient gets the same text. */
  lemma OnboardingIgnoresPhone(p: string, q: string)
    ensures GetOnboardingMessage(p) == GetOnboardingMessage(q)
  {
  }

  /** The line for the item at 0-based position `index`: "<index + 1>. <name>". */
  function ItemLine(index: nat, name: string): (line: string)
    ensures var number := DecimalString(index + 1);
            && |line| == |number| + 2 + |name|
            && AllDigits(line[..|number|]) && NatValue(line[..|number|]) == index + 1
            && line[|number|..] == ". " + name
  {
    var number := DecimalString(index + 1);
    NatValueOfDecimal(index + 1);
    assert (number + ". " + name)[..|number|] == number;
    assert (number + ". " + name)[|number|..] == ". " + name;
    number + ". " + name
  }

  /** `items.map((item, index) => ...)`: one numbered line per item, in input order. */
  function NumberedLines(names: seq<string>): (lines: seq<string>)
    ensures |lines| == |names|
    ensures forall k :: 0 <= k < |names| ==> lines[k] == ItemLine(k, names[k])
  {
    seq(|names|, k requires 0 <= k < |names| => ItemLine(k, names[k]))
  }

  /**
   * `formatItemsList`: the fixed hint for a missing or empty list, otherwise
   * the header followed by the numbered lines joined by newlines.
   */
  function FormatItemsList(items: Option<seq<string>>): (r: string)
    ensures r == NoItemsText <==> items.None? || |items.value| == 0
    ensures items.Some? && |items.value| > 0 ==> StartsWith(r, ItemsHeader)
  {
    if items.None? || |items.value| == 0 then NoItemsText
    else
      var listing := ItemsHeader + Join(NumberedLines(items.value), "\n");
      assert listing[0] != NoItemsText[0];
      listing
  }

  /** A missing or empty list gets the fixed hint. */
  lemma FormatEmpty()
    ensures FormatItemsList(None) == NoItemsText
    ensures FormatItemsList(Some([])) == NoItemsText
  {
  }

  /** One item: the header and the line "1. <name>". */
  lemma FormatOne(name: string)
    ensures FormatItemsList(Some([name])) == ItemsHeader + "1. " + name
  {
    assert NumberedLines([name]) == [ItemLine(0, name)];
    assert DecimalString(1) == "1";
  }

  /**
   * One more item appends a newline and its numbered line: the listing is the
   * header, then line k = "k. <names[k-1]>" for k = 1..n, with no trailing newline.
   */
  lemma FormatSnoc(names: seq<string>, name: string)
    requires names != []
    ensures FormatItemsList(Some(names + [name])) == FormatItemsList(Some(names)) + "\n" + ItemLine(|names|, name)
  {
    ListingSnoc(ItemsHeader, names, name);
  }

  /** The joined lines after a header `h` grow by a newline and the new item's line. */
  lemma ListingSnoc(h: string, names: seq<string>, name: string)
    requires names != []
    ensures h + Join(NumberedLines(names + [name]), "\n")
         == h + Join(NumberedLines(names), "\n") + "\n" + ItemLine(|names|, name)
  {
    var lines := NumberedLines(names);
    var line := ItemLine(|names|, name);
    NumberedLinesSnoc(names, name);
    JoinSnoc(lines, line, "\n");
  }

  /** Numbering one more item appends its line. */
  lemma NumberedLinesSnoc(names: seq<string>, name: string)
    ensures NumberedLines(names + [name]) == NumberedLines(names) + [ItemLine(|names|, name)]
  {
    var lines := NumberedLines(names);
    var line := ItemLine(|names|, name);
    var more := NumberedLines(names + [name]);
    forall k | 0 <= k < |more| ensures more[k] == (lines + [line])[k] {
      assert (names + [name])[k] == if k < |names| then names[k] else name;
    }
  }

  /** The listing of a non-empty list starts with the header and ends with the last item's name after ". ". */
  lemma FormatShape(names: seq<string>)
    requires names != []
    ensures StartsWith(FormatItemsList(Some(names)), ItemsHeader)
    ensures EndsWith(FormatItemsList(Some(names)), ". " + names[|names| - 1])
  {
    var lines := NumberedLines(names);
    var body := Join(lines, "\n");
    var n := |names| - 1;
    ConcatEnds(ItemsHeader, body);
    JoinEndsWithLast(lines, "\n");
    ItemLineEnds(n, names[n]);
    EndsWithTrans(ItemsHeader + body, body, lines[n]);
    EndsWithTrans(ItemsHeader + body, lines[n], ". " + names[n]);
  }

  /** Each line ends with ". " and the item's name. */
  lemma ItemLineEnds(index: nat, name: string)
    ensures EndsWith(ItemLine(index, name), ". " + name)
  {
    var number := DecimalString(index + 1);
    ConcatEnds(number, ". " + name);
    assert number + ". " + name == number + (". " + name);
  }

  /** The hint text is returned exactly when there is nothing to list. */
  lemma FormatHintIffEmpty(items: Option<seq<string>>)
    ensures FormatItemsList(items) == NoItemsText <==> items.None? || items.value == []
  {
    if items.Some? && items.value != [] {
      var r := FormatItemsList(items);
      assert r == ItemsHeader + Join(NumberedLines(items.value), "\n");
      assert r[0] == ItemsHeader[0] == 'H';
      assert NoItemsText[0] == 'Y';
    }
  }
}
