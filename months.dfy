/**
 * The month report of extract_months_from_file: which lines are records,
 * which date token a record carries, the MM-YYYY key built from that token,
 * the lines filed under each key, and the sorted list of distinct keys.
 */
module Months {
  import opened Wrappers
  import opened Order

  /** The record marker: the four characters `"15"`, quotes included. */
  const Marker: string := "\"15\""

  /** What the regular expression's \d accepts, restricted to ASCII. */
  predicate IsDigit(c: char) {
    '0' <= c <= '9'
  }

  predicate AllDigits(s: string) {
    forall i :: 0 <= i < |s| ==> IsDigit(s[i])
  }

  /** line.startswith('"15"') */
  predicate IsRecord(line: string) {
    Marker <= line
  }

  /** A quote, exactly eight digits and a quote start at position i of the line. */
  predicate TokenAt(line: string, i: nat) {
    i + 10 <= |line| && line[i] == '"' && AllDigits(line[i + 1..i + 9]) && line[i + 9] == '"'
  }

  /** The pattern "(\d{8})" matches somewhere in the line. */
  ghost predicate HasToken(line: string) {
    exists i: nat :: TokenAt(line, i)
  }

  /**
   * re.search for the pattern "(\d{8})" from position `from` on: the
   * leftmost position where a token starts, or None if there is none.
   */
  function FindToken(line: string, from: nat): (r: Option<nat>)
    ensures r.Some? ==> from <= r.value && TokenAt(line, r.value)
    ensures r.Some? ==> forall j: nat :: from <= j < r.value ==> !TokenAt(line, j)
    ensures r.None? ==> forall j: nat :: from <= j ==> !TokenAt(line, j)
    decreases |line| - from
  {
    if from + 10 > |line| then None
    else if TokenAt(line, from) then Some(from)
    else FindToken(line, from + 1)
  }

  /**
   * match.group(1) for a line: for a record with a token, the eight digits
   * of its leftmost token; nothing checks that they form a calendar date.
   */
  function Date(line: string): (r: Option<string>)
    ensures r.Some? <==> IsRecord(line) && HasToken(line)
    ensures r.Some? ==> |r.value| == 8 && AllDigits(r.value)
    ensures r.Some? ==> exists i: nat :: TokenAt(line, i) && r.value == line[i + 1..i + 9]
                                         && forall j: nat :: j < i ==> !TokenAt(line, j)
  {
    if !IsRecord(line) then None
    else match FindToken(line, 0)
      case None => None
      case Some(i) => Some(line[i + 1..i + 9])
  }

  /** f"{month}-{year}" with year = date[:4] and month = date[4:6]. */
  function MonthKey(date: string): string
    requires |date| == 8
  {
    date[4..6] + "-" + date[..4]
  }

  /** Two digits, a hyphen, four digits. */
  predicate IsMonthKey(k: string) {
    |k| == 7 && AllDigits(k[..2]) && k[2] == '-' && AllDigits(k[3..])
  }

  /**
   * The key a line is filed under, if any: the month digits (token characters
   * 5 and 6), a hyphen, then the year digits (token characters 1 to 4).
   */
  function KeyOf(line: string): (r: Option<string>)
    ensures r.Some? <==> IsRecord(line) && HasToken(line)
    ensures r.Some? ==> IsMonthKey(r.value)
    ensures r.Some? ==> r.value[..2] == Date(line).value[4..6] && r.value[3..] == Date(line).value[..4]
  {
    match Date(line)
    case None => None
    case Some(d) =>
      var k := MonthKey(d);
      assert k[..2] == d[4..6] && k[3..] == d[..4];
      Some(k)
  }

  /** months[k] after the loop: the lines filed under k, in input order. */
  function LinesWithKey(lines: seq<string>, k: string): (r: seq<string>)
    ensures forall l :: l in r <==> l in lines && KeyOf(l) == Some(k)
    ensures |r| <= |lines|
  {
    if lines == [] then []
    else
      var init, l := lines[..|lines| - 1], lines[|lines| - 1];
      var rest := LinesWithKey(init, k);
      assert lines == init + [l];
      if KeyOf(l) == Some(k) then rest + [l] else rest
  }

  /** The keys of the lines that are filed under some key. */
  ghost function KeySet(lines: seq<string>): set<string> {
    set l | l in lines && KeyOf(l).Some? :: KeyOf(l).value
  }

  /** How many lines are filed under some key. */
  function DatedCount(lines: seq<string>): nat {
    if lines == [] then 0
    else DatedCount(lines[..|lines| - 1]) + (if KeyOf(lines[|lines| - 1]).Some? then 1 else 0)
  }

  lemma KeySetSnoc(lines: seq<string>, l: string)
    ensures KeySet(lines + [l]) == KeySet(lines) + (if KeyOf(l).Some? then {KeyOf(l).value} else {})
  {
    assert forall x :: x in lines + [l] <==> x in lines || x == l;
  }

  lemma NoLinesWithoutKey(lines: seq<string>, k: string)
    requires k !in KeySet(lines)
    ensures LinesWithKey(lines, k) == []
  {
  }

  /** The map holds, under each key of the lines seen, the lines filed under it, and nothing else. */
  ghost predicate Filed(months: map<string, seq<string>>, pre: seq<string>) {
    months.Keys == KeySet(pre) && forall k :: k in months ==> months[k] == LinesWithKey(pre, k)
  }

  /** Filing the next line under its key keeps the map filed. */
  lemma FileLine(lines: seq<string>, i: nat, months: map<string, seq<string>>,
                 months': map<string, seq<string>>)
    requires i < |lines| && Filed(months, lines[..i])
    requires months' == match KeyOf(lines[i])
                        case None => months
                        case Some(key) => months[key := (if key in months then months[key] else []) + [lines[i]]]
    ensures Filed(months', lines[..i + 1])
  {
    PrefixSnoc(lines, i);
    FiledKeys(lines[..i], lines[i], months, months');
    FiledLists(lines[..i], lines[i], months, months');
  }

  lemma FiledKeys(pre: seq<string>, line: string, months: map<string, seq<string>>,
                  months': map<string, seq<string>>)
    requires months.Keys == KeySet(pre)
    requires months' == match KeyOf(line)
                        case None => months
                        case Some(key) => months[key := (if key in months then months[key] else []) + [line]]
    ensures months'.Keys == KeySet(pre + [line])
  {
    KeySetSnoc(pre, line);
  }

  lemma FiledLists(pre: seq<string>, line: string, months: map<string, seq<string>>,
                   months': map<string, seq<string>>)
    requires Filed(months, pre)
    requires months' == match KeyOf(line)
                        case None => months
                        case Some(key) => months[key := (if key in months then months[key] else []) + [line]]
    ensures forall k :: k in months' ==> months'[k] == LinesWithKey(pre + [line], k)
  {
    forall k | k in months' ensures months'[k] == LinesWithKey(pre + [line], k) {
      LinesWithKeySnoc(pre, line, k);
      if k !in months {
        NoLinesWithoutKey(pre, k);
      }
    }
  }

  lemma PrefixSnoc(lines: seq<string>, i: nat)
    requires i < |lines|
    ensures lines[..i + 1] == lines[..i] + [lines[i]]
  {
  }

  lemma LinesWithKeySnoc(pre: seq<string>, line: string, k: string)
    ensures LinesWithKey(pre + [line], k) == LinesWithKey(pre, k) + (if KeyOf(line) == Some(k) then [line] else [])
  {
    assert (pre + [line])[..|pre|] == pre;
  }

  /** There are at most as many distinct keys as dated lines. */
  lemma {:induction false} KeySetBound(lines: seq<string>)
    ensures |KeySet(lines)| <= DatedCount(lines)
    decreases |lines|
  {
    if lines != [] {
      var init, l := lines[..|lines| - 1], lines[|lines| - 1];
      assert lines == init + [l];
      KeySetSnoc(init, l);
      KeySetBound(init);
    }
  }

  /** The key the loop computes from the token found is the line's key. */
  lemma KeyOfFound(line: string, i: nat)
    requires IsRecord(line) && FindToken(line, 0) == Some(i)
    ensures i + 10 <= |line| && KeyOf(line) == Some(MonthKey(line[i + 1..i + 9]))
  {
  }

  /**
   * One pass of the loop of extract_months_from_file: a record line with a
   * token is appended to the list of its MM-YYYY key, which is created empty
   * on first use; any other line leaves the map as it was.
   */
  method FileRecord(months: map<string, seq<string>>, line: string) returns (months': map<string, seq<string>>)
    ensures KeyOf(line).None? ==> months' == months
    ensures KeyOf(line).Some? ==>
              var key := KeyOf(line).value;
              months' == months[key := (if key in months then months[key] else []) + [line]]
  {
    months' := months;
    if IsRecord(line) {
      var m := FindToken(line, 0);
      if m.Some? {
        var dateStr := line[m.value + 1..m.value + 9];
        var key := MonthKey(dateStr);
        KeyOfFound(line, m.value);
        months' := months[key := (if key in months then months[key] else []) + [line]];
      }
    }
  }

  /**
   * The loop of extract_months_from_file: every record line with a token is
   * appended to the list of its MM-YYYY key; other lines are skipped.
   */
  method CollectMonths(lines: seq<string>) returns (months: map<string, seq<string>>)
    ensures months.Keys == KeySet(lines)
    ensures forall k :: k in months ==> months[k] == LinesWithKey(lines, k)
  {
    months := map[];
    for i := 0 to |lines|
      invariant Filed(months, lines[..i])
    {
      var next := FileRecord(months, lines[i]);
      FileLine(lines, i, months, next);
      months := next;
    }
    assert lines[..|lines|] == lines;
  }

  /**
   * extract_months_from_file on already decoded lines: the distinct keys of
   * the dated record lines, in ascending str order, each a well-formed
   * MM-YYYY string, no more of them than dated lines.
   */
  method ExtractMonths(lines: seq<string>) returns (keys: seq<string>)
    ensures StrictlySorted(keys)
    ensures forall k :: k in keys <==> k in KeySet(lines)
    ensures forall k :: k in keys ==> IsMonthKey(k)
    ensures |keys| == |KeySet(lines)| <= DatedCount(lines)
    ensures lines == [] ==> keys == []
  {
    var months := CollectMonths(lines);
    keys := SortKeys(months.Keys);
    KeySetBound(lines);
  }

  /**
   * The month list does not depend on the order of the lines: permuted input
   * has the same key set, and a sorted duplicate-free list is fixed by its
   * elements.
   */
  lemma MonthsOrderIndependent(a: seq<string>, b: seq<string>, ka: seq<string>, kb: seq<string>)
    requires multiset(a) == multiset(b)
    requires StrictlySorted(ka) && |ka| == |KeySet(a)| && forall k :: k in ka <==> k in KeySet(a)
    requires StrictlySorted(kb) && |kb| == |KeySet(b)| && forall k :: k in kb <==> k in KeySet(b)
    ensures ka == kb
  {
    assert forall l :: l in a <==> l in b by {
      forall l ensures l in a <==> l in b {
        assert l in a <==> l in multiset(a);
        assert l in b <==> l in multiset(b);
      }
    }
    assert KeySet(a) == KeySet(b);
    SortedUnique(ka, kb);
  }

  /**
   * The sort is month-major: the month digits decide, and the year only
   * breaks ties within one month.
   */
  lemma MonthMajor(a: string, b: string)
    requires IsMonthKey(a) && IsMonthKey(b)
    ensures Below(a[..2], b[..2]) ==> Below(a, b)
    ensures a[..2] == b[..2] ==> (Below(a, b) <==> Below(a[3..], b[3..]))
  {
    if Below(a[..2], b[..2]) {
      BelowExtend(a, b, 2);
    }
    if a[..2] == b[..2] {
      assert a[..3] == b[..3];
      assert a == a[..3] + a[3..] && b == a[..3] + b[3..];
      BelowCommonPrefix(a[..3], a[3..], b[3..]);
    }
  }

  /** January 2025 is listed before December 2023. */
  lemma MonthMajorExample()
    ensures Below("01-2025", "12-2023")
  {
    MonthMajor("01-2025", "12-2023");
  }

  /**
   * A record whose second field is a quoted eight-digit token is filed under
   * that token's month and year, whatever follows, including further tokens.
   */
  lemma FirstFieldDate(d: string, rest: string)
    requires |d| == 8 && AllDigits(d)
    ensures var line := Marker + ",\"" + d + "\"" + rest;
            Date(line) == Some(d) && KeyOf(line) == Some(MonthKey(d))
  {
    var line := Marker + ",\"" + d + "\"" + rest;
    assert line[..4] == Marker;
    assert line[4] == ',' && line[5] == '"' && line[14] == '"';
    assert line[6..14] == d;
    assert TokenAt(line, 5);
    assert !IsDigit(line[3]) && !IsDigit(line[4]);
    assert !TokenAt(line, 0) && !TokenAt(line, 1) && !TokenAt(line, 2) && !TokenAt(line, 3) && !TokenAt(line, 4);
    assert FindToken(line, 0) == Some(5);
  }

  /** No calendar check: month 13 of 2024 is filed under 13-2024. */
  lemma NoCalendarCheckExample()
    ensures KeyOf(Marker + ",\"" + "20241399" + "\"" + "\n") == Some("13-2024")
  {
    var d := "20241399";
    FirstFieldDate(d, "\n");
    assert d[4..6] == "13" && d[..4] == "2024";
    assert MonthKey(d) == "13-2024";
  }

  /** The leftmost token is used when a record carries two dates. */
  lemma LeftmostTokenExample()
    ensures KeyOf(Marker + ",\"" + "20240105" + "\"" + ",\"20231231\"") == Some("01-2024")
  {
    var d := "20240105";
    FirstFieldDate(d, ",\"20231231\"");
    assert d[4..6] == "01" && d[..4] == "2024";
    assert MonthKey(d) == "01-2024";
  }

  /** A line without the marker is skipped even when it carries a date. */
  lemma NotARecordExample()
    ensures KeyOf("\"16\",\"20240105\"") == None
  {
    var line := "\"16\",\"20240105\"";
    assert line[2] != Marker[2];
  }
}
