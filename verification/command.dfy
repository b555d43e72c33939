/** The create command `!напомни <event> <time>` (bot.js lines 97-123, 139-141).

    The handler tests the message against the regular expression

      ^!напомни\s+([a-zA-Zа-яА-Я\s]+)\s+(\d{1,2})[:.](\d{2})\s*(\d{1,2})[.:](\d{2})?$

    Only group 5 is optional: group 4 and the separator after it are always
    required. This module decides the same language with a deterministic scanner
    and returns the pieces the backtracking matcher would capture, or
    `InvalidFormat`. */
module CreateCommand {
  import opened Wrappers
  import opened Decimal

  /** The command word the pattern is anchored on. */
  const Command: string := "!напомни"

  /** JavaScript's `\s`: the WhiteSpace and LineTerminator code points. */
  predicate IsSpace(c: char) {
    || c == '\t' || c == '\n' || c == '\U{000B}' || c == '\U{000C}' || c == '\r' || c == ' '
    || c == '\U{00A0}' || c == '\U{1680}' || '\U{2000}' <= c <= '\U{200A}'
    || c == '\U{2028}' || c == '\U{2029}' || c == '\U{202F}' || c == '\U{205F}'
    || c == '\U{3000}' || c == '\U{FEFF}'
  }

  /** `[a-zA-Zа-яА-Я]`: basic Latin and the 32+32 Cyrillic letters from А to я
      (so neither `ё` nor `Ё`). */
  predicate IsEventLetter(c: char) {
    'a' <= c <= 'z' || 'A' <= c <= 'Z' || 'а' <= c <= 'я' || 'А' <= c <= 'Я'
  }

  /** The class of group 1, `[a-zA-Zа-яА-Я\s]`. */
  predicate IsEventChar(c: char) {
    IsEventLetter(c) || IsSpace(c)
  }

  /** `[:.]` and `[.:]`. */
  predicate IsTimeSep(c: char) {
    c == ':' || c == '.'
  }

  predicate AllSpace(s: string) {
    forall i :: 0 <= i < |s| ==> IsSpace(s[i])
  }

  predicate AllEventChars(s: string) {
    forall i :: 0 <= i < |s| ==> IsEventChar(s[i])
  }

  datatype ParseError = InvalidFormat

  /** What follows the event: `(\d{1,2})[:.](\d{2})\s*(\d{1,2})[.:](\d{2})?`. */
  datatype Tail = Tail(
    first: string,             // group 2
    sep1: char,
    second: string,            // group 3
    space: string,             // \s*
    third: string,             // group 4
    sep2: char,
    fourth: Option<string>)    // group 5

  /** A whole match: the text around group 1 and the tail. */
  datatype Parts = Parts(
    lead: string,              // \s+ after the command word
    event: string,             // group 1
    gap: string,               // \s+ before group 2
    tail: Tail)

  predicate TailWellFormed(t: Tail) {
    && 1 <= |t.first| <= 2 && AllDigits(t.first)
    && IsTimeSep(t.sep1)
    && |t.second| == 2 && AllDigits(t.second)
    && AllSpace(t.space)
    && 1 <= |t.third| <= 2 && AllDigits(t.third)
    && IsTimeSep(t.sep2)
    && (t.fourth.Some? ==> |t.fourth.value| == 2 && AllDigits(t.fourth.value))
  }

  /** Each piece lies in the language of its part of the pattern. */
  predicate WellFormed(p: Parts) {
    && |p.lead| >= 1 && AllSpace(p.lead)
    && |p.event| >= 1 && AllEventChars(p.event)
    && |p.gap| >= 1 && AllSpace(p.gap)
    && TailWellFormed(p.tail)
  }

  /** The split the backtracking matcher settles on: the first `\s+` is as long
      as it can be, and group 1 is as long as it can be, so the second `\s+` is a
      single character. When everything between the command word and the first
      digit is whitespace, group 1 is one whitespace character. */
  predicate Greedy(p: Parts) {
    && |p.gap| == 1
    && (|p.event| >= 1 && IsSpace(p.event[0]) ==> |p.event| == 1)
  }

  /** The text a tail stands for, nested to the right in reading order. */
  function AssembleTail(t: Tail): string {
    t.first + ([t.sep1] + (t.second + (t.space + (t.third + ([t.sep2]
      + (if t.fourth.Some? then t.fourth.value else ""))))))
  }

  /** The text between the command word and group 2. */
  function Prefix(p: Parts): string {
    p.lead + p.event + p.gap
  }

  function Assemble(p: Parts): string {
    Command + (Prefix(p) + AssembleTail(p.tail))
  }

  /** Splits `s` after its longest prefix of characters satisfying `ok`. */
  function TakeWhile(s: string, ok: char -> bool): (r: (string, string))
    ensures r.0 + r.1 == s
    ensures forall k :: 0 <= k < |r.0| ==> ok(r.0[k])
    ensures r.1 == [] || !ok(r.1[0])
  {
    if s == [] || !ok(s[0]) then ([], s)
    else
      var r := TakeWhile(s[1..], ok);
      var head := [s[0]] + r.0;
      assert head + r.1 == s by {
        assert head + r.1 == [s[0]] + (r.0 + r.1);
      }
      assert forall k :: 0 <= k < |head| ==> ok(head[k]) by {
        forall k | 0 <= k < |head| ensures ok(head[k]) {
          if k > 0 { assert head[k] == r.0[k - 1]; }
        }
      }
      (head, r.1)
  }

  /** The longest prefix is the one followed by a character outside the class. */
  lemma {:induction false} TakeWhileConcat(a: string, b: string, ok: char -> bool)
    requires forall k :: 0 <= k < |a| ==> ok(a[k])
    requires b == [] || !ok(b[0])
    ensures TakeWhile(a + b, ok) == (a, b)
    decreases |a|
  {
    if a != [] {
      assert (a + b)[0] == a[0];
      assert (a + b)[1..] == a[1..] + b;
      TakeWhileConcat(a[1..], b, ok);
      assert [a[0]] + a[1..] == a;
    } else {
      assert a + b == b;
    }
  }

  /** `\d{1,2}` taken greedily: up to two leading digits and what follows them. */
  function TakeDigits12(s: string): (r: (string, string))
    ensures r.0 + r.1 == s
    ensures |r.0| <= 2 && AllDigits(r.0)
    ensures |r.0| == 0 <==> (s == [] || !IsDigit(s[0]))
    ensures |r.0| == 1 ==> r.1 == [] || !IsDigit(r.1[0])
  {
    if |s| >= 1 && IsDigit(s[0]) then
      (if |s| >= 2 && IsDigit(s[1]) then (s[..2], s[2..]) else (s[..1], s[1..]))
    else ([], s)
  }

  lemma TakeDigits12Concat(d: string, rest: string)
    requires 1 <= |d| <= 2 && AllDigits(d)
    requires |rest| >= 1 && !IsDigit(rest[0])
    ensures TakeDigits12(d + rest) == (d, rest)
  {
    var s := d + rest;
    assert s[0] == d[0];
    if |d| == 2 {
      assert s[1] == d[1];
      assert s[..2] == d;
    } else {
      assert s[1] == rest[0];
      assert s[..1] == d;
    }
  }

  /** Matches the tail of the pattern against all of `s`. Every quantifier in
      the tail is followed by a character its own class excludes, so the greedy
      choice is the only one that can succeed. */
  function ParseTail(s: string): (r: Option<Tail>)
    ensures r.Some? ==> TailWellFormed(r.value) && AssembleTail(r.value) == s
  {
    var (g2, s1) := TakeDigits12(s);
    if |g2| == 0 || |s1| < 3 || !IsTimeSep(s1[0]) || !IsDigit(s1[1]) || !IsDigit(s1[2]) then None
    else
      var g3 := s1[1..3];
      assert s1 == [s1[0]] + (g3 + s1[3..]);
      var (ws, s3) := TakeWhile(s1[3..], IsSpace);
      var (g4, s4) := TakeDigits12(s3);
      if |g4| == 0 || |s4| == 0 || !IsTimeSep(s4[0]) then None
      else
        var s5 := s4[1..];
        assert s4 == [s4[0]] + s5;
        if |s5| == 0 then
          Some(Tail(g2, s1[0], g3, ws, g4, s4[0], None))
        else if |s5| == 2 && IsDigit(s5[0]) && IsDigit(s5[1]) then
          Some(Tail(g2, s1[0], g3, ws, g4, s4[0], Some(s5)))
        else None
  }

  /** How the matcher splits the letters and whitespace before group 2: the first
      `\s+` takes the leading whitespace but must leave one character to group 1
      and one to the second `\s+`; group 1 then takes all but the last character. */
  function SplitPrefix(pre: string): (r: (string, string, string))
    requires |pre| >= 3 && AllEventChars(pre) && IsSpace(pre[0]) && IsSpace(pre[|pre| - 1])
    ensures r.0 + r.1 + r.2 == pre
    ensures |r.0| >= 1 && AllSpace(r.0)
    ensures |r.1| >= 1 && AllEventChars(r.1)
    ensures |r.2| == 1 && AllSpace(r.2)
    ensures IsSpace(r.1[0]) ==> |r.1| == 1
  {
    var n := |pre|;
    var ws := TakeWhile(pre, IsSpace).0;
    var k := if |ws| <= n - 2 then |ws| else n - 2;
    assert pre == ws + TakeWhile(pre, IsSpace).1;
    assert k < |ws| ==> IsSpace(pre[k]);
    assert k < n - 2 ==> !IsSpace(pre[k]);
    assert pre[..k] + pre[k..n - 1] + [pre[n - 1]] == pre;
    (pre[..k], pre[k..n - 1], [pre[n - 1]])
  }

  /** `regex.exec(text)` for the create pattern: the captured pieces, or
      `InvalidFormat` when the text does not match. A successful result is a
      well-formed split of exactly the input, chosen as the backtracking
      matcher chooses it. */
  function Parse(text: string): (r: Result<Parts, ParseError>)
    ensures r.Success? ==> WellFormed(r.value) && Greedy(r.value) && Assemble(r.value) == text
  {
    if !(Command <= text) then Failure(InvalidFormat)
    else
      var rest := text[|Command|..];
      // Everything before group 2 is a letter or whitespace, so group 2 starts
      // at the first character outside that class.
      var (pre, tailText) := TakeWhile(rest, IsEventChar);
      if |pre| < 3 || !IsSpace(pre[0]) || !IsSpace(pre[|pre| - 1]) then Failure(InvalidFormat)
      else
        match ParseTail(tailText)
        case None => Failure(InvalidFormat)
        case Some(tail) =>
          var (lead, event, gap) := SplitPrefix(pre);
          var p := Parts(lead, event, gap, tail);
          assert Assemble(p) == text by {
            assert Prefix(p) == pre;
            assert text == Command + rest;
          }
          Success(p)
  }

  lemma DigitIsNoEventChar(c: char)
    requires IsDigit(c)
    ensures !IsEventChar(c) && !IsSpace(c) && !IsTimeSep(c)
  {
  }

  /** Every well-formed tail is read back exactly. */
  lemma ParseTailComplete(t: Tail)
    requires TailWellFormed(t)
    ensures ParseTail(AssembleTail(t)) == Some(t)
  {
    var g5 := if t.fourth.Some? then t.fourth.value else "";
    var s4 := [t.sep2] + g5;
    var s3 := t.third + s4;
    var s2 := t.space + s3;
    var s1 := [t.sep1] + (t.second + s2);
    DigitIsNoEventChar(t.third[0]);
    TakeDigits12Concat(t.first, s1);
    assert s1[1..3] == t.second;
    assert s1[3..] == s2;
    assert s3[0] == t.third[0];
    TakeWhileConcat(t.space, s3, IsSpace);
    TakeDigits12Concat(t.third, s4);
    assert s4[1..] == g5;
  }

  lemma AllEventCharsConcat(a: string, b: string)
    requires AllEventChars(a) && AllEventChars(b)
    ensures AllEventChars(a + b)
  {
    forall k | 0 <= k < |a + b| ensures IsEventChar((a + b)[k]) {
      if k >= |a| { assert (a + b)[k] == b[k - |a|]; }
    }
  }

  lemma AllSpaceConcat(a: string, b: string)
    requires AllSpace(a) && AllSpace(b)
    ensures AllSpace(a + b)
  {
    forall k | 0 <= k < |a + b| ensures IsSpace((a + b)[k]) {
      if k >= |a| { assert (a + b)[k] == b[k - |a|]; }
    }
  }

  /** Letters and whitespace before a digit are taken as the prefix, and what
      follows as the tail. */
  lemma SplitAtFirstDigit(pre: string, tailText: string)
    requires AllEventChars(pre)
    requires |tailText| >= 1 && IsDigit(tailText[0])
    ensures (Command + (pre + tailText))[|Command|..] == pre + tailText
    ensures Command <= Command + (pre + tailText)
    ensures TakeWhile(pre + tailText, IsEventChar) == (pre, tailText)
  {
    DigitIsNoEventChar(tailText[0]);
    TakeWhileConcat(pre, tailText, IsEventChar);
  }

  /** The text before group 2 of a well-formed match is letters and whitespace,
      starting and ending with whitespace. */
  lemma PrefixShape(p: Parts)
    requires WellFormed(p)
    ensures |Prefix(p)| >= 3 && AllEventChars(Prefix(p))
    ensures IsSpace(Prefix(p)[0]) && IsSpace(Prefix(p)[|Prefix(p)| - 1])
  {
    AllEventCharsConcat(p.lead, p.event);
    assert AllEventChars(p.gap);
    AllEventCharsConcat(p.lead + p.event, p.gap);
    assert Prefix(p)[0] == p.lead[0];
    assert Prefix(p)[|Prefix(p)| - 1] == p.gap[|p.gap| - 1];
  }

  /** A split made the matcher's way is the one `SplitPrefix` makes. */
  lemma SplitPrefixGreedy(p: Parts)
    requires WellFormed(p) && Greedy(p)
    ensures |Prefix(p)| >= 3 && AllEventChars(Prefix(p))
    ensures IsSpace(Prefix(p)[0]) && IsSpace(Prefix(p)[|Prefix(p)| - 1])
            && SplitPrefix(Prefix(p)) == (p.lead, p.event, p.gap)
  {
    PrefixShape(p);
    var pre := Prefix(p);
    var n := |pre|;
    var ws := TakeWhile(pre, IsSpace).0;
    if IsSpace(p.event[0]) {
      assert AllSpace(p.event);
      AllSpaceConcat(p.lead, p.event);
      AllSpaceConcat(p.lead + p.event, p.gap);
      TakeWhileConcat(pre, [], IsSpace);
      assert pre + [] == pre;
    } else {
      assert pre == p.lead + (p.event + p.gap);
      assert (p.event + p.gap)[0] == p.event[0];
      TakeWhileConcat(p.lead, p.event + p.gap, IsSpace);
    }
    assert pre[..|p.lead|] == p.lead;
    assert pre[|p.lead|..n - 1] == p.event;
  }

  /** Every text of the pattern's shape is accepted: the pieces after group 1
      are read back as given, and the text before them is split around group 1
      the matcher's way, so a split already made that way is read back whole. */
  lemma ParseComplete(p: Parts)
    requires WellFormed(p)
    ensures Parse(Assemble(p)).Success?
    ensures Parse(Assemble(p)).value.tail == p.tail
    ensures Prefix(Parse(Assemble(p)).value) == Prefix(p)
    ensures Greedy(p) ==> Parse(Assemble(p)).value == p
  {
    var pre := Prefix(p);
    PrefixShape(p);
    SplitAtFirstDigit(pre, AssembleTail(p.tail));
    ParseTailComplete(p.tail);
    var sp := SplitPrefix(pre);
    assert Parse(Assemble(p)) == Success(Parts(sp.0, sp.1, sp.2, p.tail));
    if Greedy(p) {
      SplitPrefixGreedy(p);
    }
  }

  /** The time-only form the format hint advertises, `<event> ЧЧ:ММ` with nothing
      after the minutes, is rejected: the pattern requires group 4 and its separator. */
  lemma BareTimeRejected(lead: string, event: string, gap: string, hh: string, sep: char, mm: string)
    requires |lead| >= 1 && AllSpace(lead)
    requires |event| >= 1 && AllEventChars(event)
    requires |gap| >= 1 && AllSpace(gap)
    requires 1 <= |hh| <= 2 && AllDigits(hh) && IsTimeSep(sep)
    requires |mm| == 2 && AllDigits(mm)
    ensures Parse(Command + (lead + event + gap + (hh + ([sep] + mm)))) == Failure(InvalidFormat)
  {
    var pre := lead + event + gap;
    AllEventCharsConcat(lead, event);
    assert AllEventChars(gap);
    AllEventCharsConcat(lead + event, gap);
    var s1 := [sep] + mm;
    SplitAtFirstDigit(pre, hh + s1);
    TakeDigits12Concat(hh, s1);
    assert s1[3..] == [];
  }

  /** A character that is neither a letter of the class, nor whitespace, nor a
      digit, anywhere before the time makes the text fail: digits are the only way
      out of group 1. */
  lemma ForeignCharRejected(pre: string, c: char, rest: string)
    requires AllEventChars(pre) && !IsEventChar(c) && !IsDigit(c)
    ensures Parse(Command + (pre + ([c] + rest))) == Failure(InvalidFormat)
  {
    var text := Command + (pre + ([c] + rest));
    assert text[|Command|..] == pre + ([c] + rest);
    TakeWhileConcat(pre, [c] + rest, IsEventChar);
  }

  /** `ё` is not in the event class, so `!напомни ёлка 12:30 1:` is rejected. */
  lemma YoRejected()
    ensures Parse(Command + " ёлка 12:30 1:") == Failure(InvalidFormat)
  {
    YoText();
    ForeignCharRejected(" ", 'ё', "лка 12:30 1:");
  }

  lemma YoText()
    ensures " " + (['ё'] + "лка 12:30 1:") == " ёлка 12:30 1:"
  {
  }

  /** The time must be set off from the event by whitespace: a digit straight
      after a letter (`обед2 12:30 1:`) makes the text fail. */
  lemma DigitInEventRejected(pre: string, tailText: string)
    requires AllEventChars(pre) && |pre| >= 1 && !IsSpace(pre[|pre| - 1])
    requires |tailText| >= 1 && IsDigit(tailText[0])
    ensures Parse(Command + (pre + tailText)) == Failure(InvalidFormat)
  {
    SplitAtFirstDigit(pre, tailText);
  }

  // ---------------------------------------------------------------------------
  // Field extraction

  /** What the handler reads out of a match: with group 5 present the text is a
      date and a time, otherwise only groups 2 and 3 are used, as a time. */
  datatype Request =
    | TimeOnly(event: string, hour: nat, minute: nat)
    | DateTime(event: string, day: nat, month: int, hour: nat, minute: nat)

  /** Lines 115-123 and 139-141: `parseInt` of the groups; the month is made
      zero-based. Hour, minute, day and month are not range-checked. */
  function ToRequest(p: Parts): (r: Request)
    requires WellFormed(p)
    ensures r.event == p.event
    ensures r.DateTime? <==> p.tail.fourth.Some?
    ensures r.hour < 100 && r.minute < 100
    ensures r.DateTime? ==> r.day < 100 && -1 <= r.month < 99
  {
    var t := p.tail;
    match t.fourth
    case Some(g5) =>
      DateTime(p.event, ParseDigits(t.first), ParseDigits(t.second) - 1, ParseDigits(t.third), ParseDigits(g5))
    case None =>
      TimeOnly(p.event, ParseDigits(t.first), ParseDigits(t.second))
  }

  /** The whole create-command front end: the request, or the format error. */
  function ParseRequest(text: string): Result<Request, ParseError> {
    match Parse(text)
    case Failure(e) => Failure(e)
    case Success(p) => Success(ToRequest(p))
  }

  /** Requests that some command text produces with its natural spelling: an event
      starting with a letter, and numbers that fit the digit groups. */
  predicate Renderable(r: Request) {
    && |r.event| >= 1 && AllEventChars(r.event) && !IsSpace(r.event[0])
    && r.hour < 100 && r.minute < 100
    && (r.DateTime? ==> r.day < 100 && -1 <= r.month < 99)
  }

  /** The pieces of a command text for a request. A time-only request needs a
      group 4 and a separator after the minutes, which the handler then ignores. */
  function RenderParts(r: Request): Parts
    requires Renderable(r)
  {
    match r
    case TimeOnly(e, h, mi) =>
      Parts(" ", e, " ", Tail(NatToString(h), ':', PadStart2(NatToString(mi)), " ", "0", '.', None))
    case DateTime(e, d, m, h, mi) =>
      Parts(" ", e, " ", Tail(NatToString(d), '.', PadStart2(NatToString(m + 1)), " ",
                              NatToString(h), ':', Some(PadStart2(NatToString(mi)))))
  }

  /** A command text for a request, such as `!напомни обед 5.03 13:30`. */
  function Render(r: Request): string
    requires Renderable(r)
  {
    Assemble(RenderParts(r))
  }

  /** Reading a rendered command gives back the request it was rendered from. */
  lemma ParseRender(r: Request)
    requires Renderable(r)
    ensures ParseRequest(Render(r)) == Success(r)
  {
    NatToStringShort(r.hour);
    PaddedTwoDigits(r.minute);
    ParseNatToString(r.hour);
    if r.DateTime? {
      NatToStringShort(r.day);
      ParseNatToString(r.day);
      PaddedTwoDigits(r.month + 1);
    }
    var p := RenderParts(r);
    assert AllSpace(" ");
    assert AllDigits("0");
    assert WellFormed(p) && Greedy(p);
    ParseComplete(p);
    assert ToRequest(p) == r;
  }

  /** Which group feeds which field, for every spelling the pattern accepts:
      with group 5 the day is group 2, the month is group 3 less one, and the
      hour and minute are groups 4 and 5; without it the hour and minute are
      groups 2 and 3, whatever group 4 is. Leading zeros are read as `parseInt`
      reads them. */
  lemma ParseFields(p: Parts)
    requires WellFormed(p)
    ensures ParseRequest(Assemble(p)).Success?
    ensures var r := ParseRequest(Assemble(p)).value;
      && (r.DateTime? <==> p.tail.fourth.Some?)
      && (r.DateTime? ==>
            && r.day == ParseDigits(p.tail.first)
            && r.month == ParseDigits(p.tail.second) - 1
            && r.hour == ParseDigits(p.tail.third)
            && r.minute == ParseDigits(p.tail.fourth.value))
      && (r.TimeOnly? ==> r.hour == ParseDigits(p.tail.first) && r.minute == ParseDigits(p.tail.second))
      && (Greedy(p) ==> r.event == p.event)
  {
    ParseComplete(p);
  }

  /** Leading zeros are dropped: `!напомни обед 05.03 09:30` reminds of `обед`
      on day 5 of month 2 (March, counted from 0) at 9:30. */
  lemma LeadingZerosExample()
    ensures ParseRequest(Command + " обед 05.03 09:30") == Success(DateTime("обед", 5, 2, 9, 30))
  {
    var p := Parts(" ", "обед", " ", Tail("05", '.', "03", " ", "09", ':', Some("30")));
    LeadingZerosShape();
    LeadingZerosText();
    ParseComplete(p);
    LeadingZerosFields();
  }

  lemma LeadingZerosFields()
    ensures var p := Parts(" ", "обед", " ", Tail("05", '.', "03", " ", "09", ':', Some("30")));
      WellFormed(p) && ToRequest(p) == DateTime("обед", 5, 2, 9, 30)
  {
    LeadingZerosShape();
    ParseTwoDigits("05");
    ParseTwoDigits("03");
    ParseTwoDigits("09");
    ParseTwoDigits("30");
  }

  lemma LeadingZerosShape()
    ensures var p := Parts(" ", "обед", " ", Tail("05", '.', "03", " ", "09", ':', Some("30")));
      WellFormed(p) && Greedy(p)
  {
    assert AllEventChars("обед");
  }

  lemma LeadingZerosText()
    ensures Assemble(Parts(" ", "обед", " ", Tail("05", '.', "03", " ", "09", ':', Some("30"))))
      == Command + " обед 05.03 09:30"
  {
  }

  /** Without group 5 the text after the minutes is ignored: `!напомни обед 7.05 99.`
      reminds of `обед` at 7:05. */
  lemma GroupFourIgnored()
    ensures ParseRequest(Command + " обед 7.05 99.") == Success(TimeOnly("обед", 7, 5))
  {
    var p := Parts(" ", "обед", " ", Tail("7", '.', "05", " ", "99", '.', None));
    GroupFourShape();
    GroupFourText();
    ParseComplete(p);
    GroupFourFields();
  }

  lemma GroupFourFields()
    ensures var p := Parts(" ", "обед", " ", Tail("7", '.', "05", " ", "99", '.', None));
      WellFormed(p) && ToRequest(p) == TimeOnly("обед", 7, 5)
  {
    GroupFourShape();
    assert ParseDigits("7") == 7;
    ParseTwoDigits("05");
  }

  lemma GroupFourShape()
    ensures var p := Parts(" ", "обед", " ", Tail("7", '.', "05", " ", "99", '.', None));
      WellFormed(p) && Greedy(p)
  {
    assert AllEventChars("обед");
  }

  lemma GroupFourText()
    ensures Assemble(Parts(" ", "обед", " ", Tail("7", '.', "05", " ", "99", '.', None)))
      == Command + " обед 7.05 99."
  {
  }

  /** Group 1 keeps the whitespace between the event and the time except the last
      character: `!напомни  обед  12:30 1:` reminds of `обед ` with its trailing
      space, at 12:30. */
  lemma EventNotTrimmed()
    ensures ParseRequest(Command + "  обед  12:30 1:") == Success(TimeOnly("обед ", 12, 30))
  {
    var p := Parts("  ", "обед ", " ", Tail("12", ':', "30", " ", "1", ':', None));
    assert AllEventChars("обед ");
    assert WellFormed(p) && Greedy(p);
    assert Assemble(p) == Command + "  обед  12:30 1:";
    ParseComplete(p);
    assert ParseDigits("12") == 12 && ParseDigits("30") == 30;
  }

  /** A number below 100 renders as one or two digits. */
  lemma NatToStringShort(n: nat)
    requires n < 100
    ensures |NatToString(n)| <= 2
  {
  }
}
