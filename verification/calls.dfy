/**
 * One 911 call record and the preparation step that enriches the loaded
 * table: the calendar columns taken from the parsed timestamp and the
 * emergency Reason taken from the title (`title.split(":")[0]`).
 */
module Calls {

  /** The fields the dashboard reads from a parsed timestamp (`.dt.year`, ...). */
  datatype DateTime = DateTime(year: int, month: int, hour: int, dayOfWeek: int)

  /** A row as loaded, after the timestamp column has been parsed. */
  datatype RawCall = RawCall(timestamp: DateTime, title: string, township: string)

  /** A row after preparation, with the derived columns Year, Month, Hour, Day and Reason. */
  datatype CallRecord = CallRecord(
    timestamp: DateTime,
    title: string,
    township: string,
    year: int,
    month: int,
    hour: int,
    day: int,
    reason: string)

  const Colon: char := ':'

  // ---------------------------------------------------------------------
  // str.split(sep)
  // ---------------------------------------------------------------------

  /**
   * Python's `s.split(sep)` for a one-character separator: the pieces
   * between separators, always at least one (an empty string splits into
   * `[""]`), none containing the separator.
   */
  function Split(s: string, sep: char): (parts: seq<string>)
    ensures |parts| >= 1
    ensures forall k :: 0 <= k < |parts| ==> sep !in parts[k]
    ensures parts[0] <= s
    ensures sep in s ==> |parts[0]| < |s| && s[|parts[0]|] == sep
    ensures sep !in s ==> parts == [s]
  {
    if |s| == 0 then [""]
    else if s[0] == sep then [""] + Split(s[1..], sep)
    else
      var rest := Split(s[1..], sep);
      assert s == [s[0]] + s[1..];
      [[s[0]] + rest[0]] + rest[1..]
  }

  /** Python's `sep.join(parts)`. */
  function Join(parts: seq<string>, sep: char): string
    requires |parts| >= 1
  {
    if |parts| == 1 then parts[0] else parts[0] + [sep] + Join(parts[1..], sep)
  }

  /** Joining the pieces of a split with the same separator gives the string back. */
  lemma {:induction false} JoinSplit(s: string, sep: char)
    ensures Join(Split(s, sep), sep) == s
  {
    if |s| > 0 {
      JoinSplit(s[1..], sep);
      var rest := Split(s[1..], sep);
      if s[0] == sep {
        assert Split(s, sep)[1..] == rest;
      } else {
        var parts := Split(s, sep);
        assert parts[1..] == rest[1..];
        if |rest| > 1 {
          assert Join(rest, sep) == rest[0] + [sep] + Join(rest[1..], sep);
        }
        assert s == [s[0]] + s[1..];
      }
    }
  }

  /** Splitting a separator-free piece followed by the separator peels that piece off. */
  lemma {:induction false} SplitPiece(p: string, sep: char, t: string)
    requires sep !in p
    ensures Split(p + [sep] + t, sep) == [p] + Split(t, sep)
  {
    if |p| == 0 {
      assert p + [sep] + t == [sep] + t;
      assert ([sep] + t)[1..] == t;
    } else {
      SplitPiece(p[1..], sep, t);
      assert (p + [sep] + t)[1..] == p[1..] + [sep] + t;
      assert p == [p[0]] + p[1..];
    }
  }

  /** Splitting a join of separator-free pieces gives the pieces back. */
  lemma {:induction false} SplitJoin(parts: seq<string>, sep: char)
    requires |parts| >= 1
    requires forall k :: 0 <= k < |parts| ==> sep !in parts[k]
    ensures Split(Join(parts, sep), sep) == parts
  {
    if |parts| > 1 {
      SplitJoin(parts[1..], sep);
      SplitPiece(parts[0], sep, Join(parts[1..], sep));
      assert parts == [parts[0]] + parts[1..];
    }
  }

  // ---------------------------------------------------------------------
  // Reason: title.split(":")[0]
  // ---------------------------------------------------------------------

  /**
   * The emergency type: the text of the title before its first colon, kept
   * verbatim; a title without a colon is its own Reason.
   */
  function ReasonOf(title: string): (r: string)
    ensures r <= title
    ensures Colon !in r
    ensures Colon in title ==> title == r + [Colon] + title[|r| + 1..]
    ensures Colon !in title ==> r == title
  {
    var r := Split(title, Colon)[0];
    assert Colon in title ==> title == r + [Colon] + title[|r| + 1..] by {
      if Colon in title {
        assert title == title[..|r|] + [title[|r|]] + title[|r| + 1..];
      }
    }
    r
  }

  /** A colon-free prefix followed by a colon is recovered as the Reason. */
  lemma ReasonRoundTrip(r: string, rest: string)
    requires Colon !in r
    ensures ReasonOf(r + [Colon] + rest) == r
  {
    SplitPiece(r, Colon, rest);
  }

  lemma ReasonOfCardiacEmergency()
    ensures ReasonOf("EMS: CARDIAC EMERGENCY") == "EMS"
  {
    assert "EMS: CARDIAC EMERGENCY" == "EMS" + [Colon] + " CARDIAC EMERGENCY";
    ReasonRoundTrip("EMS", " CARDIAC EMERGENCY");
  }

  // ---------------------------------------------------------------------
  // Dataset preparation
  // ---------------------------------------------------------------------

  /**
   * Adds the derived columns to every loaded row: Year, Month, Hour and Day
   * of week from the timestamp, Reason from the title. The loaded columns
   * are kept as they are, and so is the row order.
   */
  method Prepare(raw: seq<RawCall>) returns (df: seq<CallRecord>)
    ensures |df| == |raw|
    ensures forall i :: 0 <= i < |raw| ==>
      && df[i].timestamp == raw[i].timestamp
      && df[i].title == raw[i].title
      && df[i].township == raw[i].township
      && df[i].year == raw[i].timestamp.year
      && df[i].month == raw[i].timestamp.month
      && df[i].hour == raw[i].timestamp.hour
      && df[i].day == raw[i].timestamp.dayOfWeek
      && df[i].reason == ReasonOf(raw[i].title)
  {
    df := [];
    var i := 0;
    while i < |raw|
      invariant 0 <= i <= |raw|
      invariant |df| == i
      invariant forall k :: 0 <= k < i ==>
        && df[k].timestamp == raw[k].timestamp
        && df[k].title == raw[k].title
        && df[k].township == raw[k].township
        && df[k].year == raw[k].timestamp.year
        && df[k].month == raw[k].timestamp.month
        && df[k].hour == raw[k].timestamp.hour
        && df[k].day == raw[k].timestamp.dayOfWeek
        && df[k].reason == ReasonOf(raw[k].title)
    {
      var call := raw[i];
      var t := call.timestamp;
      df := df + [CallRecord(t, call.title, call.township, t.year, t.month, t.hour, t.dayOfWeek, ReasonOf(call.title))];
      i := i + 1;
    }
  }

  // ---------------------------------------------------------------------
  // Columns
  // ---------------------------------------------------------------------

  function Reasons(df: seq<CallRecord>): seq<string>
  {
    seq(|df|, i requires 0 <= i < |df| => df[i].reason)
  }

  function Townships(df: seq<CallRecord>): seq<string>
  {
    seq(|df|, i requires 0 <= i < |df| => df[i].township)
  }

  function Years(df: seq<CallRecord>): seq<int>
  {
    seq(|df|, i requires 0 <= i < |df| => df[i].year)
  }

  function Hours(df: seq<CallRecord>): seq<int>
  {
    seq(|df|, i requires 0 <= i < |df| => df[i].hour)
  }

  function Days(df: seq<CallRecord>): seq<int>
  {
    seq(|df|, i requires 0 <= i < |df| => df[i].day)
  }
}
