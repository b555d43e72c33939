/** The reply to `!лист` (bot.js lines 48-65): every row of the table, one line
    each, with its time shown as a local calendar date and clock reading. */
module ListReply {
  import opened Decimal
  import opened Calendar
  import opened ReminderStore

  const EmptyReply: string := "Список напоминаний пуст."
  const Header: string := "Список напоминаний:\n"

  /** `${date}.${month}.${year} ${hours}:${mm}`: every field in plain decimal,
      except the minutes, which are zero-padded to two places. */
  function ShowDate(date: nat, month: nat, year: int, hours: nat, minutes: nat): string {
    NatToString(date) + "." + NatToString(month) + "." + IntToString(year) + " "
      + NatToString(hours) + ":" + PadStart2(NatToString(minutes))
  }

  /** The date text of `new Date(time)`: `getDate()`, `getMonth() + 1`,
      `getFullYear()`, `getHours()` and `getMinutes()`. */
  function FormatDate(t: int): string {
    ShowDate(DateFromTime(t), MonthFromTime(t) + 1, YearFromTime(t), HourFromTime(t), MinFromTime(t))
  }

  /** `- ${row.event} (${formattedDate})\n` */
  function Line(row: Row): (r: string)
    ensures |r| > |row.event| + 4
  {
    "- " + row.event + " (" + FormatDate(row.time) + ")\n"
  }

  /** The texts of `xs`, one after the other, in order. */
  function Join<T>(xs: seq<T>, text: T -> string): (r: string)
    ensures xs == [] ==> r == []
  {
    if xs == [] then [] else Join(xs[..|xs| - 1], text) + text(xs[|xs| - 1])
  }

  /** Joining two runs is joining each, one after the other. */
  lemma {:induction false} JoinConcat<T>(a: seq<T>, b: seq<T>, text: T -> string)
    ensures Join(a + b, text) == Join(a, text) + Join(b, text)
    decreases |b|
  {
    if b == [] {
      assert a + b == a;
    } else {
      var ab := a + b;
      var init := b[..|b| - 1];
      assert ab[..|ab| - 1] == a + init;
      assert ab[|ab| - 1] == b[|b| - 1];
      JoinConcat(a, init, text);
    }
  }

  /** One element is joined to its own text. */
  lemma JoinOne<T>(x: T, text: T -> string)
    ensures Join([x], text) == text(x)
  {
    assert [x][..0] == [];
    assert Join([x], text) == [] + text(x);
  }

  /** The text of element `k` sits between the texts of the elements before it
      and the texts of the elements after it. */
  lemma JoinAt<T>(xs: seq<T>, k: int, text: T -> string)
    requires 0 <= k < |xs|
    ensures Join(xs, text) == Join(xs[..k], text) + (text(xs[k]) + Join(xs[k + 1..], text))
  {
    SplitAround(xs, k);
    JoinConcat(xs[..k], [xs[k]] + xs[k + 1..], text);
    JoinCons(xs[k], xs[k + 1..], text);
  }

  lemma SplitAround<T>(xs: seq<T>, k: int)
    requires 0 <= k < |xs|
    ensures xs == xs[..k] + ([xs[k]] + xs[k + 1..])
  {
  }

  /** One element in front of a run is joined in front of the run's text. */
  lemma JoinCons<T>(x: T, c: seq<T>, text: T -> string)
    ensures Join([x] + c, text) == text(x) + Join(c, text)
  {
    JoinConcat([x], c, text);
    JoinOne(x, text);
  }

  /** The lines `forEach` appends, one per row, in row order. */
  function Lines(rows: seq<Row>): string {
    Join(rows, Line)
  }

  /** The text the bot sends for a table holding `rows`. */
  function Reply(rows: seq<Row>): string {
    if |rows| == 0 then EmptyReply else Header + Lines(rows)
  }

  /** The empty-table message is sent exactly when the table is empty; otherwise
      the reply starts with the header. */
  lemma ReplyEmptyIff(rows: seq<Row>)
    ensures Reply(rows) == EmptyReply <==> rows == []
    ensures rows != [] ==> Header <= Reply(rows)
  {
    if rows != [] {
      var r := Reply(rows);
      assert r[..|Header|] == Header;
      assert r[18] == Header[18] == ':';
      assert EmptyReply[18] == ' ';
    }
  }

  /** Row `k` has its line after the header and the lines of every row before
      it, and before the lines of every row after it. */
  lemma ReplyRowAt(rows: seq<Row>, k: int)
    requires 0 <= k < |rows|
    ensures Reply(rows) == Header + (Lines(rows[..k]) + (Line(rows[k]) + Lines(rows[k + 1..])))
  {
    JoinAt(rows, k, Line);
  }

  /** Appending row `i`'s line to the reply so far covers one more row. */
  lemma ReplyStep(rows: seq<Row>, i: int)
    requires 0 <= i < |rows|
    ensures Header + Lines(rows[..i]) + Line(rows[i]) == Header + Lines(rows[..i + 1])
  {
    assert rows[..i + 1][..i] == rows[..i];
    assert Lines(rows[..i + 1]) == Lines(rows[..i]) + Line(rows[i]);
  }

  /** The reply built the way the handler builds it: start from the header and
      append one line per row. */
  method BuildReply(rows: seq<Row>) returns (reply: string)
    ensures reply == Reply(rows)
  {
    if |rows| == 0 {
      return EmptyReply;
    }
    var list := Header;
    var i := 0;
    while i < |rows|
      invariant 0 <= i <= |rows|
      invariant list == Header + Lines(rows[..i])
    {
      ReplyStep(rows, i);
      list := list + Line(rows[i]);
      i := i + 1;
    }
    assert rows[..|rows|] == rows;
    return list;
  }

  /** A time built from a valid date and an in-range clock reading is shown with
      exactly those fields, the month counted from 1. */
  lemma ListedCivil(y: int, m: int, d: int, h: int, mi: int)
    requires ValidDate(y, m, d) && 0 <= h < 24 && 0 <= mi < 60
    ensures FormatDate(MakeDate(MakeDay(y, m, d), MakeTime(h, mi, 0, 0))) == ShowDate(d, m + 1, y, h, mi)
  {
    CivilFields(y, m, d, h, mi);
  }

  /** Day 10, month 3, year 2024, 9:05 renders as `10.3.2024 9:05`: no padding
      on the day, month or hour, two places for the minutes. */
  lemma ShowDateExample()
    ensures ShowDate(10, 3, 2024, 9, 5) == "10.3.2024 9:05"
  {
    assert NatToString(10) == "10";
    assert NatToString(3) == "3";
    assert IntToString(2024) == "2024";
    assert NatToString(9) == "9";
    assert PadStart2(NatToString(5)) == "05";
  }

  /** 9:05 on 10 March 2024 is listed as `10.3.2024 9:05`. */
  lemma ListedExample()
    ensures FormatDate(MakeDate(MakeDay(2024, 2, 10), MakeTime(9, 5, 0, 0))) == "10.3.2024 9:05"
  {
    assert ValidDate(2024, 2, 10);
    ListedCivil(2024, 2, 10, 9, 5);
    ShowDateExample();
  }
}
