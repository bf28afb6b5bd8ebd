/**
  The pizza lines of the order text.

  Each variety with a positive count becomes one line ` - <name> x<count>`
  ending in a newline; a variety with no pizzas contributes nothing. The lines
  follow the order of the distribution. The model pairs the formatter with a
  parser for the same lines and proves that the two invert each other, so the
  order text determines exactly which varieties were ordered and how many.
 */
module Items {
  import opened Optional
  import opened Decimal
  import opened Distribution

  const Bullet: string := " - "
  const Times: string := " x"

  /** A parsed item line: the name and the count it lists. */
  datatype Item = Item(name: string, quantity: int)

  /** The formatter of one variety's line: nothing for a count of zero or
      less, otherwise the bullet, the name, the count and a newline. */
  function FormatItem(quantity: int, name: string): (line: string)
    ensures line == "" <==> quantity <= 0
    ensures 0 < quantity ==> line[|line| - 1] == '\n'
    ensures 0 < quantity ==> |line| == |Bullet| + |name| + |Times| + |NatToString(quantity)| + 1
  {
    if quantity <= 0 then "" else Bullet + name + Times + NatToString(quantity) + "\n"
  }

  /** Where the run of digits at the end of `s` starts. */
  function DigitsStart(s: string): (k: nat)
    ensures k <= |s|
    ensures forall i :: k <= i < |s| ==> IsDigit(s[i])
    ensures 0 < k ==> !IsDigit(s[k - 1])
    decreases |s|
  {
    if |s| == 0 || !IsDigit(s[|s| - 1]) then |s| else DigitsStart(s[..|s| - 1])
  }

  /** Reads one item line back: the bullet, a name, `" x"`, a positive count
      written canonically, and the newline. The count is found from the right,
      so the name may itself contain digits, `" x"` or anything else. */
  function ParseItem(line: string): Option<Item>
  {
    if |line| < |Bullet| + 1 || line[..|Bullet|] != Bullet || line[|line| - 1] != '\n' then None
    else
      var body := line[|Bullet|..|line| - 1];
      var k := DigitsStart(body);
      var digits := body[k..];
      if k < |Times| || body[k - |Times|..k] != Times || !Canonical(digits) || digits == "0" then None
      else Some(Item(body[..k - |Times|], ParseNat(digits)))
  }

  /** The digit run at the end of `prefix + digits` is exactly `digits` when
      `prefix` ends in a non-digit. */
  lemma {:induction false} DigitsStartAfter(prefix: string, digits: string)
    requires AllDigits(digits)
    requires 0 < |prefix| && !IsDigit(prefix[|prefix| - 1])
    ensures DigitsStart(prefix + digits) == |prefix|
    decreases |digits|
  {
    var s := prefix + digits;
    if |digits| == 0 {
      assert s == prefix;
    } else {
      assert s[..|s| - 1] == prefix + digits[..|digits| - 1];
      DigitsStartAfter(prefix, digits[..|digits| - 1]);
    }
  }

  /** Every line the formatter writes parses back to its name and count. */
  lemma ParseFormatItem(quantity: int, name: string)
    requires 0 < quantity
    ensures ParseItem(FormatItem(quantity, name)) == Some(Item(name, quantity))
  {
    var digits := NatToString(quantity);
    var line := FormatItem(quantity, name);
    var prefix := name + Times;
    assert line == Bullet + (prefix + digits) + "\n";
    var body := line[|Bullet|..|line| - 1];
    assert line[..|Bullet|] == Bullet;
    assert body == prefix + digits;
    DigitsStartAfter(prefix, digits);
    assert body[..|prefix|] == prefix;
    assert body[|prefix|..] == digits;
    assert body[|prefix| - |Times|..|prefix|] == Times;
    assert body[..|prefix| - |Times|] == name;
    ParseNatToString(quantity);
  }

  /** Every line the parser accepts is exactly the formatter's line for what
      it read, with a positive count. */
  lemma FormatParseItem(line: string)
    requires ParseItem(line).Some?
    ensures 0 < ParseItem(line).value.quantity
    ensures FormatItem(ParseItem(line).value.quantity, ParseItem(line).value.name) == line
  {
    var body := line[|Bullet|..|line| - 1];
    var k := DigitsStart(body);
    var digits := body[k..];
    var name := body[..k - |Times|];
    assert ParseItem(line) == Some(Item(name, ParseNat(digits)));
    NatToStringParse(digits);
    ParsePositive(digits);
    Reassemble(line, k);
  }

  /** A line cut into bullet, name, `" x"`, digits and final character joins
      back into itself. */
  lemma Reassemble(line: string, k: nat)
    requires |Bullet| < |line| && |Times| <= k <= |line| - 1 - |Bullet|
    requires line[..|Bullet|] == Bullet
    requires line[|Bullet|..|line| - 1][k - |Times|..k] == Times
    requires line[|line| - 1] == '\n'
    ensures line == Bullet + line[|Bullet|..|line| - 1][..k - |Times|] + Times
      + line[|Bullet|..|line| - 1][k..] + "\n"
  {
    var body := line[|Bullet|..|line| - 1];
    var b := |Bullet|;
    Cut5(line, b, b + k - |Times|, b + k, |line| - 1);
    assert line[b..b + k - |Times|] == body[..k - |Times|];
    assert line[b + k - |Times|..b + k] == Times;
    assert line[b + k..|line| - 1] == body[k..];
    assert line[|line| - 1..] == "\n";
  }

  /** A string is the join of its pieces between four cut points. */
  lemma Cut5(s: string, a: nat, b: nat, c: nat, d: nat)
    requires a <= b <= c <= d <= |s|
    ensures s == s[..a] + s[a..b] + s[b..c] + s[c..d] + s[d..]
  {
  }

  /** The formatter and the parser agree in both directions: a line parses to
      an item exactly when it is that item's formatted line with a positive
      count. */
  lemma ItemLineRoundTrip(line: string, item: Item)
    ensures ParseItem(line) == Some(item) <==> (0 < item.quantity && FormatItem(item.quantity, item.name) == line)
  {
    if ParseItem(line) == Some(item) {
      FormatParseItem(line);
    }
    if 0 < item.quantity && FormatItem(item.quantity, item.name) == line {
      ParseFormatItem(item.quantity, item.name);
    }
  }

  /** The pizza details of the order text: the formatted lines of the
      distribution's entries, in the distribution's order. */
  function ItemList(d: seq<Entry>): string
  {
    if |d| == 0 then "" else Line(d[0]) + ItemList(d[1..])
  }

  /** The line of one entry of the distribution. */
  function Line(e: Entry): string
  {
    FormatItem(e.quantity, Name(e.variety))
  }

  /** The loop that builds the pizza details, appending one formatted entry
      at a time, yields the item list. */
  method BuildItemList(d: seq<Entry>) returns (details: string)
    ensures details == ItemList(d)
  {
    details := "";
    var i := 0;
    while i < |d|
      invariant 0 <= i <= |d|
      invariant details == ItemList(d[..i])
    {
      ItemListPrefix(d, i);
      details := details + Line(d[i]);
      i := i + 1;
    }
    assert d[..i] == d;
  }

  /** The item list of one more entry of `d` has that entry's line appended. */
  lemma ItemListPrefix(d: seq<Entry>, i: nat)
    requires i < |d|
    ensures ItemList(d[..i + 1]) == ItemList(d[..i]) + Line(d[i])
  {
    assert d[..i + 1] == d[..i] + [d[i]];
    ItemListAppend(d[..i], d[i]);
  }

  /** Appending one entry appends its line. */
  lemma {:induction false} ItemListAppend(d: seq<Entry>, e: Entry)
    ensures ItemList(d + [e]) == ItemList(d) + Line(e)
    decreases |d|
  {
    if |d| > 0 {
      assert (d + [e])[1..] == d[1..] + [e];
      ItemListAppend(d[1..], e);
    }
  }

  /** The entries that are served: those with a positive count, in order. */
  function Served(d: seq<Entry>): (s: seq<Entry>)
    ensures |s| <= |d|
    ensures forall i :: 0 <= i < |s| ==> 0 < s[i].quantity
    decreases |d|
  {
    if |d| == 0 then []
    else if 0 < d[0].quantity then [d[0]] + Served(d[1..])
    else Served(d[1..])
  }

  /** The items the order text should list for the served entries. */
  function AsItems(d: seq<Entry>): (items: seq<Item>)
    ensures |items| == |d|
    ensures forall i :: 0 <= i < |d| ==> items[i] == Item(Name(d[i].variety), d[i].quantity)
  {
    if |d| == 0 then [] else [Item(Name(d[0].variety), d[0].quantity)] + AsItems(d[1..])
  }

  /** Position of the first newline, or the length when there is none. */
  function FirstNewline(s: string): (k: nat)
    ensures k <= |s|
    ensures k < |s| ==> s[k] == '\n'
    ensures forall i :: 0 <= i < k ==> s[i] != '\n'
    decreases |s|
  {
    if |s| == 0 then 0 else if s[0] == '\n' then 0 else 1 + FirstNewline(s[1..])
  }

  /** Reads a whole item list back, line by line. */
  function ParseItems(s: string): Option<seq<Item>>
    decreases |s|
  {
    if |s| == 0 then Some([])
    else
      var k := FirstNewline(s);
      if k == |s| then None
      else match ParseItem(s[..k + 1])
        case None => None
        case Some(item) =>
          match ParseItems(s[k + 1..])
          case None => None
          case Some(rest) => Some([item] + rest)
  }

  predicate NoNewline(s: string)
  {
    forall i :: 0 <= i < |s| ==> s[i] != '\n'
  }

  /** No variety name contains a newline. */
  lemma NamesOnOneLine(v: Variety)
    ensures NoNewline(Name(v))
  {
  }

  /** A formatted line has its only newline at its end. */
  lemma FormattedLineHasOneNewline(quantity: int, name: string)
    requires 0 < quantity && NoNewline(name)
    ensures NoNewline(FormatItem(quantity, name)[..|FormatItem(quantity, name)| - 1])
  {
    var digits := NatToString(quantity);
    var line := FormatItem(quantity, name);
    assert line[..|line| - 1] == Bullet + name + Times + digits;
    assert NoNewline(digits) by {
      forall i | 0 <= i < |digits| ensures digits[i] != '\n' {
        assert IsDigit(digits[i]);
      }
    }
    JoinOnOneLine(Bullet, name);
    JoinOnOneLine(Bullet + name, Times);
    JoinOnOneLine(Bullet + name + Times, digits);
  }

  /** Joining two strings without newlines gives one without newlines. */
  lemma JoinOnOneLine(a: string, b: string)
    requires NoNewline(a) && NoNewline(b)
    ensures NoNewline(a + b)
  {
    forall i | 0 <= i < |a + b| ensures (a + b)[i] != '\n' {
      if i >= |a| {
        assert (a + b)[i] == b[i - |a|];
      }
    }
  }

  /** The parser splits a served entry's line off the front of a list. */
  lemma SplitFirstLine(line: string, rest: string)
    requires 0 < |line| && line[|line| - 1] == '\n' && NoNewline(line[..|line| - 1])
    ensures FirstNewline(line + rest) == |line| - 1
    ensures (line + rest)[..|line|] == line
    ensures (line + rest)[|line|..] == rest
  {
  }

  /** The item list of any distribution reads back as the served entries'
      names and counts, in order: zero counts leave no line, and every other
      entry leaves exactly its own. */
  lemma {:induction false} ParseItemList(d: seq<Entry>)
    ensures ParseItems(ItemList(d)) == Some(AsItems(Served(d)))
    decreases |d|
  {
    if |d| > 0 {
      var e := d[0];
      var line := Line(e);
      var rest := ItemList(d[1..]);
      ParseItemList(d[1..]);
      if e.quantity <= 0 {
        assert ItemList(d) == rest;
      } else {
        NamesOnOneLine(e.variety);
        FormattedLineHasOneNewline(e.quantity, Name(e.variety));
        SplitFirstLine(line, rest);
        ParseFormatItem(e.quantity, Name(e.variety));
        assert ItemList(d) == line + rest;
        assert AsItems(Served(d)) == [Item(Name(e.variety), e.quantity)] + AsItems(Served(d[1..]));
      }
    }
  }

  /** For a total of zero or one only the two forced varieties are listed,
      one pizza each. */
  lemma SmallTotalsItemList(total: int)
    requires 0 <= total <= 1
    ensures ItemList(Distribute(total)) == FormatItem(1, Name(Verde)) + FormatItem(1, Name(Kickiricki))
  {
    var d := Distribute(total);
    SmallTotalsOvershoot(total);
    ItemListOfSeven(d);
    assert d[0].quantity == 0 && d[1].quantity == 0 && d[4].quantity == 0 && d[5].quantity == 0 && d[6].quantity == 0;
    assert d[2] == Entry(Verde, 1) && d[3] == Entry(Kickiricki, 1);
    JoinMiddle(Line(d[0]), Line(d[1]), Line(d[2]), Line(d[3]), Line(d[4]), Line(d[5]), Line(d[6]));
  }

  /** Empty lines around the two middle ones drop out of a join. */
  lemma JoinMiddle(a: string, b: string, c: string, e: string, f: string, g: string, h: string)
    requires a == "" && b == "" && f == "" && g == "" && h == ""
    ensures a + (b + (c + (e + (f + (g + h))))) == c + e
  {
  }

  /** The item list of seven entries, line by line. */
  lemma ItemListOfSeven(d: seq<Entry>)
    requires |d| == 7
    ensures ItemList(d) == Line(d[0]) + (Line(d[1]) + (Line(d[2]) + (Line(d[3]) + (Line(d[4]) + (Line(d[5]) + Line(d[6]))))))
  {
    var d1, d2, d3, d4, d5, d6 := d[1..], d[2..], d[3..], d[4..], d[5..], d[6..];
    assert d1[1..] == d2 && d2[1..] == d3 && d3[1..] == d4 && d4[1..] == d5 && d5[1..] == d6;
    assert d6[1..] == [];
    assert ItemList(d6) == Line(d[6]);
    assert ItemList(d5) == Line(d[5]) + ItemList(d6);
    assert ItemList(d4) == Line(d[4]) + ItemList(d5);
    assert ItemList(d3) == Line(d[3]) + ItemList(d4);
    assert ItemList(d2) == Line(d[2]) + ItemList(d3);
    assert ItemList(d1) == Line(d[1]) + ItemList(d2);
  }
}
