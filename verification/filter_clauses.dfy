/** The filter-query string built for one request parameter that is not `sort`/`fl`. */
module FilterClauses {
  import opened Wrappers
  import opened JavaString
  import opened QueryModel

  const OrSeparator: string := " OR "

  /** Appended to a value the `YYYY` pattern accepted, to make it an ISO instant. */
  const YearSuffix: string := "-01-01T00:00:00.000Z"

  /** Whether plain values are wrapped in double quotes. */
  datatype ValueStyle = Quoted | Bare

  /** A key whose lower-cased name contains `year` or `date` takes range clauses. */
  predicate IsDateKey(key: string) {
    Contains(ToLower(key), "year") || Contains(ToLower(key), "date")
  }

  /** Parse with the ISO format, then format the instant back; `None` is a ParseException. */
  function IsoAnchor(val: string, cal: Calendar): Option<string> {
    match cal.isoParse(val)
    case Some(d) => Some(cal.isoFormat(d))
    case None => None
  }

  /** The anchor instant of one date value, following the try/catch: the try block
      reassigns the value (adding the year suffix) before its ISO parse, so when that
      parse fails the catch block retries with the reassigned value. The result: a value
      the (lenient) year pattern accepts is only ever read as the ISO parse of the value
      with `-01-01T00:00:00.000Z` appended, never as its own ISO text. */
  function AnchorDate(val: string, cal: Calendar): (r: Option<string>)
    ensures cal.yearParses(val) ==> r == IsoAnchor(val + YearSuffix, cal)
    ensures !cal.yearParses(val) ==> r == IsoAnchor(val, cal)
  {
    var yearAccepted := cal.yearParses(val);
    var tried := if yearAccepted then IsoAnchor(val + YearSuffix, cal) else None;
    var seenByCatch := if yearAccepted then val + YearSuffix else val;
    if tried.Some? then tried else IsoAnchor(seenByCatch, cal)
  }

  function RangeTerm(key: string, date: string): string {
    key + ":[" + date + " TO " + date + "+1YEAR]"
  }

  /** One range term per value that has an anchor, in value order; the rest are dropped. */
  function DateTerms(key: string, vals: seq<string>, cal: Calendar): seq<string>
    decreases |vals|
  {
    if |vals| == 0 then []
    else
      DateHead(key, vals[0], cal) + DateTerms(key, vals[1..], cal)
  }

  /** Every value that has an anchor contributes a term, in order, and only those do. */
  lemma {:induction false} DateTermsDropUnparsable(key: string, vals: seq<string>, cal: Calendar)
    ensures |DateTerms(key, vals, cal)| <= |vals|
    ensures var kept := Anchored(vals, cal);
      && |DateTerms(key, vals, cal)| == |kept|
      && forall i :: 0 <= i < |kept| ==> DateTerms(key, vals, cal)[i] == RangeTerm(key, AnchorDate(kept[i], cal).value)
    ensures (forall i :: 0 <= i < |vals| ==> AnchorDate(vals[i], cal).None?) ==> DateTerms(key, vals, cal) == []
    ensures (forall i :: 0 <= i < |vals| ==> AnchorDate(vals[i], cal).Some?) ==>
      |DateTerms(key, vals, cal)| == |vals| &&
      forall i :: 0 <= i < |vals| ==> DateTerms(key, vals, cal)[i] == RangeTerm(key, AnchorDate(vals[i], cal).value)
  {
    DateTermsLength(key, vals, cal);
    DateTermsMixed(key, vals, cal);
    if forall i :: 0 <= i < |vals| ==> AnchorDate(vals[i], cal).None? {
      DateTermsNoneParse(key, vals, cal);
    }
    if forall i :: 0 <= i < |vals| ==> AnchorDate(vals[i], cal).Some? {
      DateTermsAllParse(key, vals, cal);
    }
  }

  /** Reference: the values that have an anchor, in their original order. */
  function Anchored(vals: seq<string>, cal: Calendar): (kept: seq<string>)
    ensures |kept| <= |vals|
    ensures forall i :: 0 <= i < |kept| ==> AnchorDate(kept[i], cal).Some?
    decreases |vals|
  {
    if |vals| == 0 then []
    else if AnchorDate(vals[0], cal).Some? then [vals[0]] + Anchored(vals[1..], cal)
    else Anchored(vals[1..], cal)
  }

  /** A list mixing anchored and unanchored values: the terms are those of the anchored
      values alone, in order. */
  lemma {:induction false} DateTermsMixed(key: string, vals: seq<string>, cal: Calendar)
    ensures |DateTerms(key, vals, cal)| == |Anchored(vals, cal)|
    ensures forall i :: 0 <= i < |Anchored(vals, cal)| ==>
      DateTerms(key, vals, cal)[i] == RangeTerm(key, AnchorDate(Anchored(vals, cal)[i], cal).value)
    decreases |vals|
  {
    if |vals| > 0 {
      DateTermsStep(key, vals, cal);
      DateTermsMixed(key, vals[1..], cal);
    }
  }

  /** The term a single value contributes. */
  function DateHead(key: string, val: string, cal: Calendar): seq<string> {
    match AnchorDate(val, cal)
    case Some(d) => [RangeTerm(key, d)]
    case None => []
  }

  lemma DateTermsStep(key: string, vals: seq<string>, cal: Calendar)
    requires |vals| > 0
    ensures DateTerms(key, vals, cal) == DateHead(key, vals[0], cal) + DateTerms(key, vals[1..], cal)
  {
  }

  lemma {:induction false} DateTermsLength(key: string, vals: seq<string>, cal: Calendar)
    ensures |DateTerms(key, vals, cal)| <= |vals|
    decreases |vals|
  {
    if |vals| > 0 {
      DateTermsStep(key, vals, cal);
      DateTermsLength(key, vals[1..], cal);
    }
  }

  lemma {:induction false} DateTermsNoneParse(key: string, vals: seq<string>, cal: Calendar)
    requires forall i :: 0 <= i < |vals| ==> AnchorDate(vals[i], cal).None?
    ensures DateTerms(key, vals, cal) == []
    decreases |vals|
  {
    if |vals| > 0 {
      DateTermsStep(key, vals, cal);
      forall i | 0 <= i < |vals[1..]| ensures AnchorDate(vals[1..][i], cal).None? {
        assert vals[1..][i] == vals[i + 1];
      }
      DateTermsNoneParse(key, vals[1..], cal);
    }
  }

  lemma {:induction false} DateTermsAllParse(key: string, vals: seq<string>, cal: Calendar)
    requires forall i :: 0 <= i < |vals| ==> AnchorDate(vals[i], cal).Some?
    ensures |DateTerms(key, vals, cal)| == |vals|
    ensures forall i :: 0 <= i < |vals| ==> DateTerms(key, vals, cal)[i] == RangeTerm(key, AnchorDate(vals[i], cal).value)
    decreases |vals|
  {
    if |vals| > 0 {
      DateTermsStep(key, vals, cal);
      var rest := vals[1..];
      forall i | 0 <= i < |rest| ensures AnchorDate(rest[i], cal).Some? {
        assert rest[i] == vals[i + 1];
      }
      DateTermsAllParse(key, rest, cal);
      var head := DateHead(key, vals[0], cal);
      assert head == [RangeTerm(key, AnchorDate(vals[0], cal).value)];
      var ts := DateTerms(key, vals, cal);
      forall i | 0 <= i < |vals|
        ensures ts[i] == RangeTerm(key, AnchorDate(vals[i], cal).value)
      {
        if i > 0 {
          assert ts[i] == DateTerms(key, rest, cal)[i - 1];
          assert rest[i - 1] == vals[i];
        }
      }
    }
  }

  /** The range clause of a date key: every term followed by " OR ", then one trailing
      " OR " removed. It is exactly the terms joined by " OR ", and "" when none parsed. */
  function DateClause(key: string, vals: seq<string>, cal: Calendar): (r: string)
    ensures r == Join(DateTerms(key, vals, cal), OrSeparator)
  {
    StripTerminated(DateTerms(key, vals, cal), OrSeparator);
    StripSuffix(Terminated(DateTerms(key, vals, cal), OrSeparator), OrSeparator)
  }

  function Styled(val: string, style: ValueStyle): string {
    match style
    case Quoted => "\"" + val + "\""
    case Bare => val
  }

  function PlainTerms(key: string, vals: seq<string>, style: ValueStyle): seq<string> {
    seq(|vals|, i requires 0 <= i < |vals| => key + ":" + Styled(vals[i], style))
  }

  /** The equality clause of a plain key: `key:v` per value, each followed by " OR ",
      then one trailing " OR " removed. It is the terms joined by " OR " (one term per
      value, in order), and "" for an empty value list. */
  function PlainClause(key: string, vals: seq<string>, style: ValueStyle): (r: string)
    ensures r == Join(PlainTerms(key, vals, style), OrSeparator)
    ensures |vals| == 0 ==> r == ""
    ensures |vals| == 1 ==> r == key + ":" + Styled(vals[0], style)
  {
    StripTerminated(PlainTerms(key, vals, style), OrSeparator);
    StripSuffix(Terminated(PlainTerms(key, vals, style), OrSeparator), OrSeparator)
  }

  /** The clause one non-reserved parameter contributes. */
  function FilterClause(key: string, vals: seq<string>, cal: Calendar, style: ValueStyle): string {
    if IsDateKey(key) then DateClause(key, vals, cal) else PlainClause(key, vals, style)
  }

  /** Quoting only affects plain keys: a date key's clause is the same in every variant. */
  lemma DateClauseIgnoresStyle(key: string, vals: seq<string>, cal: Calendar)
    requires IsDateKey(key)
    ensures FilterClause(key, vals, cal, Quoted) == FilterClause(key, vals, cal, Bare)
  {
  }
}
