/**
 * Concrete questions answered end to end by the rule-based path, worked out
 * from the general lemmas about the table and text branches.
 */
module Scenarios {
  import opened Wrappers
  import opened Strings
  import opened Numbers
  import opened QaEngine

  /** A revenue column is found case-insensitively and its cells are added up. */
  lemma RevenueTotal()
    ensures SimpleQA("what is the total revenue?", Table([Column("Revenue", [Num(100), Num(200), Num(300)])]))
      == Some(TotalMessage("Revenue", 600))
    ensures FormatThousands(600) == "600"
  {
    var question := "what is the total revenue?";
    var cols := [Column("Revenue", [Num(100), Num(200), Num(300)])];
    var q := Lower(question);
    assert Lower("Revenue") == "revenue";
    assert q[18..25] == "revenue";
    assert OccursAt("revenue", q, 18);
    assert IsFirstMatchingColumn(cols, q, 0);
    assert Summable(cols, 0);
    assert SumCells(cols[0].cells) == Some(600);
    assert Decimal(6) == "6";
    assert Decimal(60) == "60";
    assert Decimal(600) == "600";
    TableAnswerSpec(question, cols);
  }

  /** "revenue" is asked about but no line holds it, so the next keyword asked
      about, "profit", picks the line. */
  lemma KeywordFallThrough()
    ensures SimpleQA("revenue or profit?", Text("Profit")) == Some("Here\U{2019}s what I found: *" + Strip("Profit") + "*")
  {
    var question := "revenue or profit?";
    var s := "Profit";
    var q := Lower(question);
    var lines := Split(s, '\n');
    SplitNoSeparator(s, '\n');
    assert lines == [s];
    assert Keywords[0] == "revenue" && Keywords[1] == "profit";
    RevenueIsNoHit();
    ProfitIsHit();
    assert IsChosenKeyword(Keywords, q, lines, 1) && IsFirstLineWith(lines, Keywords[1], 0);
    TextAnswerSpec(question, s);
    assert SimpleQA(question, Text(s)) == Some("Here\U{2019}s what I found: *" + Strip(lines[0]) + "*");
  }

  /** The question asks about revenue, but the one-word text is too short to hold it. */
  lemma RevenueIsNoHit()
    ensures !KeywordHit("revenue", Lower("revenue or profit?"), ["Profit"])
  {
    assert |Lower("Profit")| < |"revenue"|;
  }

  /** The question asks about profit, and the text holds it in another case. */
  lemma ProfitIsHit()
    ensures KeywordHit("profit", Lower("revenue or profit?"), ["Profit"])
    ensures IsFirstLineWith(["Profit"], "profit", 0)
  {
    var q := Lower("revenue or profit?");
    var lines := ["Profit"];
    assert Lower(lines[0]) == "profit";
    assert OccursAt("profit", Lower(lines[0]), 0);
    assert q[11..17] == "profit";
    assert OccursAt("profit", q, 11);
  }

  /** A line with no white space at either end is quoted as it is. */
  lemma ProfitQuotedAsIs()
    ensures Strip("Profit") == "Profit"
  {
    var s := "Profit";
    assert !IsSpace(s[0]) && !IsSpace(s[|s| - 1]);
    assert OccursAt(s, s, 0);
    StripUnique(s, s, 0);
  }

  /** A negative total keeps its sign and has a comma between every three digits. */
  lemma NegativeTotalGrouped()
    ensures FormatThousands(-1234567) == "-1,234,567"
  {
    ThousandGrouped();
    assert ThreeDigits(567) == "567";
    assert Grouped(1234567) == "1,234,567";
  }

  /** The first two groups of that total. */
  lemma ThousandGrouped()
    ensures Grouped(1234) == "1,234"
  {
    assert ThreeDigits(234) == "234";
    assert Grouped(1) == "1";
  }
}
