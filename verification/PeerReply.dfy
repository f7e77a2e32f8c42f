/** The time exchange between peers: names that may be used, the reply that is sent, and how it is read. */
module PeerReply {
  import opened Wrappers
  import opened Text
  import opened Decimals

  const MAX_NAME := 32
  const MAX_MESSAGE_BYTES := 256
  const MAX_PLAUSIBLE_SKEW_S := 3600.0
  const STAMP_PLACES := 6

  datatype NameError = EmptyName | NameTooLong(length: nat) | NameWithSpaces

  function ValidateName(value: string): Result<string, NameError> {
    var name := Strip(value);
    if name == "" then Err(EmptyName)
    else if |name| > MAX_NAME then Err(NameTooLong(|name|))
    else if exists k :: 0 <= k < |name| && IsSpace(name[k]) then Err(NameWithSpaces)
    else Ok(name)
  }

  /** What a peer sends: its name, a blank, and its local time in seconds with six decimals. */
  function Reply(name: string, micros: nat): string {
    name + " " + PrintFixed(micros, STAMP_PLACES)
  }

  function CharBytes(c: char): nat {
    if c < '\U{80}' then 1 else if c < '\U{800}' then 2 else if c < '\U{10000}' then 3 else 4
  }

  /** One, two, three or four bytes hold 7, 11, 16 or 21 bits of the character. */
  lemma BytesHoldBits(c: char)
    ensures CharBytes(c) == 1 <==> c as int < 128
    ensures CharBytes(c) <= 2 <==> c as int < 2048
    ensures CharBytes(c) <= 3 <==> c as int < 65536
    ensures 1 <= CharBytes(c) <= 4
  {
  }

  /** The length in UTF-8. */
  function Bytes(s: string): nat {
    if s == "" then 0 else CharBytes(s[0]) + Bytes(s[1..])
  }

  function FirstWord(s: string): (w: string)
    ensures w <= s && (s != "" && !IsSpace(s[0]) ==> w != "")
  {
    if s == "" || IsSpace(s[0]) then "" else [s[0]] + FirstWord(s[1..])
  }

  /** The words between whitespace. */
  function Words(s: string): seq<string>
    decreases |s|
  {
    StripLeftIsSuffix(s);
    var t := StripLeft(s);
    if t == "" then []
    else
      var w := FirstWord(t);
      [w] + Words(t[|w|..])
  }

  datatype ReplyError = EmptyReply | ReplyTooLarge | Malformed | NoNumber | NotPositive | Implausible

  function Seconds(t: Decimal): real {
    if t.places >= 0 then t.units as real / Scale(t.places) else t.units as real * Scale(-t.places)
  }

  function Scale(places: nat): (r: real)
    ensures r > 0.0
  {
    if places == 0 then 1.0 else 10.0 * Scale(places - 1)
  }

  predicate Plausible(peerTime: real, ownTime: real) {
    -MAX_PLAUSIBLE_SKEW_S <= peerTime - ownTime <= MAX_PLAUSIBLE_SKEW_S
  }

  /** A reply is used if its time is positive and plausible. */
  predicate Accepted(peerTime: real, ownTime: real) {
    peerTime > 0.0 && Plausible(peerTime, ownTime)
  }

  /** The time in a reply must be positive and plausible; "nan" passes both tests, which are comparisons. */
  function CheckTime(time: Number, ownTime: real): Option<ReplyError> {
    match time
    case Finite(t) =>
      if Seconds(t) <= 0.0 then Some(NotPositive)
      else if !Plausible(Seconds(t), ownTime) then Some(Implausible)
      else None
    case Infinity(negative) => Some(if negative then NotPositive else Implausible)
    case NotANumber => None
  }

  /** The filter in plain numbers: after the epoch, and at most an hour before or after the own time. */
  lemma FilterIsAnHour(peerTime: real, ownTime: real)
    ensures Accepted(peerTime, ownTime) <==>
            peerTime > 0.0 && peerTime <= ownTime + 3600.0 && ownTime <= peerTime + 3600.0
  {
  }

  /** What is said of a refused time, and which of two reasons comes first. */
  lemma ReasonsOfRefusal(t: Decimal, ownTime: real)
    ensures CheckTime(Finite(t), ownTime) ==
            if Seconds(t) <= 0.0 then Some(NotPositive)
            else if Seconds(t) > ownTime + 3600.0 || Seconds(t) < ownTime - 3600.0 then Some(Implausible)
            else None
    ensures CheckTime(Infinity(true), ownTime) == Some(NotPositive)
    ensures CheckTime(Infinity(false), ownTime) == Some(Implausible)
  {
  }

  lemma FiniteTimeIsAccepted(t: Decimal, ownTime: real)
    ensures CheckTime(Finite(t), ownTime).None? <==> Accepted(Seconds(t), ownTime)
  {
  }

  function ParseReply(raw: string, ownTime: real): Result<(string, Number), ReplyError> {
    if raw == "" then Err(EmptyReply)
    else if Bytes(raw) > MAX_MESSAGE_BYTES then Err(ReplyTooLarge)
    else
      var parts := Words(Strip(raw));
      if |parts| != 2 then Err(Malformed)
      else
        match ParseFloat(parts[1])
        case None => Err(NoNumber)
        case Some(time) =>
          match CheckTime(time, ownTime)
          case Some(e) => Err(e)
          case None => Ok((parts[0], time))
  }

  // ---------------------------------------------------------------- round trip

  predicate NoSpaces(s: string) {
    forall k :: 0 <= k < |s| ==> !IsSpace(s[k])
  }

  lemma AcceptedName(value: string)
    requires ValidateName(value).Ok?
    ensures var name := ValidateName(value).value;
            name != "" && |name| <= 32 && NoSpaces(name) && ValidateName(name) == Ok(name)
  {
    var name := ValidateName(value).value;
    StripKeeps(name);
  }

  /** Every short name without whitespace is accepted, and whitespace around it does not matter. */
  lemma GoodNameIsAccepted(before: string, name: string, after: string)
    requires name != "" && |name| <= 32 && NoSpaces(name) && AllSpaces(before) && AllSpaces(after)
    ensures ValidateName(before + name + after) == Ok(name)
  {
    StripTakesSpaces(before, name, after);
  }

  /** Why a name is refused. */
  lemma NameErrors(value: string)
    ensures ValidateName(value) == Err(EmptyName) <==> AllSpaces(value)
    ensures ValidateName(value) == Err(NameTooLong(|Strip(value)|)) <==> |Strip(value)| > 32
    ensures ValidateName(value) == Err(NameWithSpaces) <==>
            !AllSpaces(value) && |Strip(value)| <= 32 && !NoSpaces(Strip(value))
  {
    StripIsEmpty(value);
  }

  /** Why a text is refused before its time is looked at. */
  lemma TextErrors(raw: string, parts: seq<string>, ownTime: real)
    requires parts == Words(Strip(raw))
    ensures raw == "" ==> ParseReply(raw, ownTime) == Err(EmptyReply)
    ensures raw != "" && Bytes(raw) > 256 ==> ParseReply(raw, ownTime) == Err(ReplyTooLarge)
    ensures raw != "" && Bytes(raw) <= 256 && |parts| != 2 ==> ParseReply(raw, ownTime) == Err(Malformed)
    ensures raw != "" && Bytes(raw) <= 256 && |parts| == 2 && ParseFloat(parts[1]) == None ==>
      ParseReply(raw, ownTime) == Err(NoNumber)
  {
  }

  /** A reply as it is sent: the name, one blank, and the time with six decimals. */
  lemma ReplyFormat(name: string, micros: nat)
    ensures var reply := Reply(name, micros);
            && |reply| > |name| && reply[..|name|] == name && reply[|name|] == ' '
            && reply[|name| + 1..] == PrintFixed(micros, 6)
  {
  }

  lemma {:induction false} FirstWordOf(w: string, rest: string)
    requires NoSpaces(w) && (rest == "" || IsSpace(rest[0]))
    ensures FirstWord(w + rest) == w
  {
    if w == "" {
      assert w + rest == rest;
    } else {
      FirstWordOf(w[1..], rest);
      assert (w + rest)[1..] == w[1..] + rest;
    }
  }

  lemma FirstOfWords(s: string, w: string, rest: string)
    requires w != "" && NoSpaces(w) && s == w + (" " + rest)
    ensures Words(s) == [w] + Words(rest)
  {
    FirstWordOf(w, " " + rest);
    assert StripLeft(s) == s;
    assert s[|w|..] == " " + rest;
    assert (" " + rest)[1..] == rest;
    assert StripLeft(" " + rest) == StripLeft(rest);
  }

  lemma WordsOfTwo(a: string, b: string)
    requires a != "" && b != "" && NoSpaces(a) && NoSpaces(b)
    ensures Words(a + " " + b) == [a, b]
  {
    assert a + " " + b == a + (" " + b);
    FirstOfWords(a + " " + b, a, b);
    FirstWordOf(b, "");
    assert b + "" == b && StripLeft(b) == b;
    assert Words("") == [];
  }

  lemma PrintedHasNoSpaces(micros: nat)
    ensures PrintFixed(micros, STAMP_PLACES) != "" && NoSpaces(PrintFixed(micros, STAMP_PLACES))
  {
    var s := PrintFixed(micros, STAMP_PLACES);
    PrintedEnds(micros, STAMP_PLACES);
    forall k | 0 <= k < |s|
      ensures !IsSpace(s[k])
    {
      assert s[k] in s;
    }
  }

  /**
   A reply built from an accepted name is read back as that name and that time, exactly if it fits into a message, the
   time is positive and lies within the plausible distance of the reader's own.
   */
  lemma ReplyRoundTrip(name: string, micros: nat, ownTime: real)
    requires ValidateName(name) == Ok(name)
    ensures ParseReply(Reply(name, micros), ownTime) == Ok((name, Finite(Decimal(micros, STAMP_PLACES)))) <==>
      && Bytes(Reply(name, micros)) <= MAX_MESSAGE_BYTES
      && micros > 0
      && Plausible(Seconds(Decimal(micros, STAMP_PLACES)), ownTime)
  {
    AcceptedName(name);
    PrintedHasNoSpaces(micros);
    ParsePrinted(micros, STAMP_PLACES);
    if Bytes(Reply(name, micros)) <= MAX_MESSAGE_BYTES {
      TwoWordsAreRead(name, PrintFixed(micros, STAMP_PLACES), Finite(Decimal(micros, STAMP_PLACES)), ownTime);
    }
    PositiveSeconds(micros, Scale(STAMP_PLACES));
  }

  /** Text with more than two words is not read as a reply. */
  lemma MoreWordsAreMalformed(raw: string, words: seq<string>, ownTime: real)
    requires raw != "" && Bytes(raw) <= MAX_MESSAGE_BYTES && Strip(raw) == raw && Words(raw) == words && |words| > 2
    ensures ParseReply(raw, ownTime) == Err(Malformed)
  {
  }

  lemma ThreeWordsAreMalformed(a: string, b: string, c: string, ownTime: real)
    requires a != "" && b != "" && c != "" && NoSpaces(a) && NoSpaces(b) && NoSpaces(c)
    requires Bytes(a + (" " + (b + " " + c))) <= MAX_MESSAGE_BYTES
    ensures ParseReply(a + (" " + (b + " " + c)), ownTime) == Err(Malformed)
  {
    var rest := b + " " + c;
    var raw := a + (" " + rest);
    assert raw[0] == a[0] && raw[|raw| - 1] == c[|c| - 1];
    StripKeeps(raw);
    FirstOfWords(raw, a, rest);
    WordsOfTwo(b, c);
    MoreWordsAreMalformed(raw, [a] + [b, c], ownTime);
  }

  /** This is why a name must not contain a blank: the reply could not be read. */
  lemma NameWithBlankIsMalformed(a: string, b: string, micros: nat, ownTime: real)
    requires a != "" && b != "" && NoSpaces(a) && NoSpaces(b)
    requires Bytes(Reply(a + " " + b, micros)) <= MAX_MESSAGE_BYTES
    ensures ParseReply(Reply(a + " " + b, micros), ownTime) == Err(Malformed)
  {
    var stamp := PrintFixed(micros, STAMP_PLACES);
    PrintedHasNoSpaces(micros);
    assert Reply(a + " " + b, micros) == a + (" " + (b + " " + stamp));
    ThreeWordsAreMalformed(a, b, stamp, ownTime);
  }

  /** What becomes of a reply with an accepted name, in every case. */
  lemma ReplyOutcome(name: string, micros: nat, ownTime: real, t: Decimal)
    requires ValidateName(name) == Ok(name) && t == Decimal(micros, STAMP_PLACES)
    ensures ParseReply(Reply(name, micros), ownTime) ==
            if Bytes(Reply(name, micros)) > 256 then Err(ReplyTooLarge)
            else if micros == 0 then Err(NotPositive)
            else if Seconds(t) > ownTime + 3600.0 || Seconds(t) < ownTime - 3600.0 then Err(Implausible)
            else Ok((name, Finite(t)))
  {
    AcceptedName(name);
    PrintedHasNoSpaces(micros);
    ParsePrinted(micros, STAMP_PLACES);
    PositiveSeconds(micros, Scale(STAMP_PLACES));
    ReasonsOfRefusal(t, ownTime);
    if Bytes(Reply(name, micros)) <= MAX_MESSAGE_BYTES {
      TwoWordsAreRead(name, PrintFixed(micros, STAMP_PLACES), Finite(t), ownTime);
    }
  }

  lemma PositiveSeconds(units: nat, scale: real)
    requires scale > 0.0
    ensures units as real / scale <= 0.0 <==> units == 0
  {
  }

  lemma {:induction false} FirstWordIsWord(s: string)
    ensures NoSpaces(FirstWord(s))
  {
    if s == "" || IsSpace(s[0]) {
    } else {
      FirstWordIsWord(s[1..]);
    }
  }

  lemma {:induction false} WordsAreWords(s: string)
    ensures forall k :: 0 <= k < |Words(s)| ==> Words(s)[k] != "" && NoSpaces(Words(s)[k])
    decreases |s|
  {
    StripLeftIsSuffix(s);
    var t := StripLeft(s);
    if t == "" {
    } else {
      FirstWordIsWord(t);
      WordsAreWords(t[|FirstWord(t)|..]);
    }
  }

  /** What the filter is for: a time that is a number, positive and plausible. */
  predicate Sane(time: Number, ownTime: real) {
    time.Finite? && Accepted(Seconds(time.value), ownTime)
  }

  /** The text is one that can be a reply, and its second word is "nan", with any sign and in any case. */
  predicate IsNanReply(raw: string) {
    && raw != "" && Bytes(raw) <= MAX_MESSAGE_BYTES
    && var parts := Words(Strip(raw));
       |parts| == 2 && IsNanText(parts[1])
  }

  /** A reply that is used has a name, and a sane time exactly if the text of its time is not "nan". */
  lemma UsedReply(raw: string, ownTime: real)
    requires ParseReply(raw, ownTime).Ok?
    ensures var (name, time) := ParseReply(raw, ownTime).value;
            && name != "" && NoSpaces(name)
            && (time.NotANumber? || Sane(time, ownTime))
            && (Sane(time, ownTime) <==> !IsNanText(Words(Strip(raw))[1]))
  {
    WordsAreWords(Strip(raw));
    NanIsRead(Words(Strip(raw))[1]);
  }

  /** So exactly the replies with the time "nan" pass the filter without a sane time, whatever the own time is. */
  lemma FilterFailsForNan(raw: string, ownTime: real)
    ensures ParseReply(raw, ownTime).Ok? && !Sane(ParseReply(raw, ownTime).value.1, ownTime) <==> IsNanReply(raw)
  {
    if ParseReply(raw, ownTime).Ok? {
      UsedReply(raw, ownTime);
    }
    if IsNanReply(raw) {
      NanIsRead(Words(Strip(raw))[1]);
    }
  }

  lemma TwoWordsAreRead(name: string, stamp: string, time: Number, ownTime: real)
    requires name != "" && stamp != "" && NoSpaces(name) && NoSpaces(stamp)
    requires Bytes(name + " " + stamp) <= MAX_MESSAGE_BYTES && ParseFloat(stamp) == Some(time)
    ensures ParseReply(name + " " + stamp, ownTime) ==
            match CheckTime(time, ownTime) case Some(e) => Err(e) case None => Ok((name, time))
  {
    var raw := name + " " + stamp;
    assert raw[0] == name[0] && raw[|raw| - 1] == stamp[|stamp| - 1];
    StripKeeps(raw);
    WordsOfTwo(name, stamp);
  }

  /** And "nan" is indeed used, whatever the own time is. */
  lemma NanIsUsed(name: string, ownTime: real)
    requires ValidateName(name) == Ok(name)
    ensures ParseReply(name + " nan", ownTime) == Ok((name, NotANumber))
  {
    AcceptedName(name);
    StripKeeps("nan");
    NanIsRead("nan");
    assert NoSpaces("nan");
    assert name + " nan" == name + " " + "nan";
    BytesAreBounded(name + " nan");
    TwoWordsAreRead(name, "nan", NotANumber, ownTime);
  }

  /** A time as it is printed: rounded to whole microseconds, ties to even. */
  function Micros(time: real): (micros: nat)
    requires time >= 0.0
    ensures micros as real - 0.5 <= time * 1000000.0 <= micros as real + 0.5
    ensures time * 1000000.0 == micros as real - 0.5 || time * 1000000.0 == micros as real + 0.5 ==> micros % 2 == 0
  {
    var exact := time * 1000000.0;
    var whole := exact.Floor;
    var rest := exact - whole as real;
    if rest < 0.5 || (rest == 0.5 && whole % 2 == 0) then whole else whole + 1
  }

  lemma MicrosAreClose(time: real)
    requires time >= 0.0
    ensures -0.0000005 <= Seconds(Decimal(Micros(time), STAMP_PLACES)) - time <= 0.0000005
  {
    ScaleIsMillion();
    var units, scale := Micros(time) as real, 1000000.0;
    assert units / scale * scale == units;
  }

  lemma ScaleIsMillion()
    ensures Scale(STAMP_PLACES) == 1000000.0
  {
    assert Scale(1) == 10.0;
    assert Scale(2) == 100.0;
    assert Scale(3) == 1000.0;
    assert Scale(4) == 10000.0;
    assert Scale(5) == 100000.0;
  }

  /**
   A peer's local time arrives with its name, off by at most half a microsecond, if it is not within that of being
   refused.
   */
  lemma TimeArrives(name: string, time: real, ownTime: real)
    requires ValidateName(name) == Ok(name)
    requires time > 0.0000005 && Bytes(Reply(name, Micros(time))) <= MAX_MESSAGE_BYTES
    requires ownTime - MAX_PLAUSIBLE_SKEW_S + 0.0000005 <= time <= ownTime + MAX_PLAUSIBLE_SKEW_S - 0.0000005
    ensures var r := ParseReply(Reply(name, Micros(time)), ownTime);
            && r.Ok? && r.value.0 == name && r.value.1.Finite?
            && -0.0000005 <= Seconds(r.value.1.value) - time <= 0.0000005
  {
    MicrosAreClose(time);
    ReplyRoundTrip(name, Micros(time), ownTime);
  }

  // ---------------------------------------------------------------- sizes

  lemma {:induction false} BytesOfConcatenation(a: string, b: string)
    ensures Bytes(a + b) == Bytes(a) + Bytes(b)
  {
    if a == "" {
      assert a + b == b;
    } else {
      BytesOfConcatenation(a[1..], b);
      assert (a + b)[1..] == a[1..] + b;
    }
  }

  lemma {:induction false} BytesAreBounded(s: string)
    ensures |s| <= Bytes(s) <= 4 * |s|
    ensures Bytes(s) == |s| <==> forall k :: 0 <= k < |s| ==> s[k] as int < 128
    ensures (forall c :: c in s ==> IsDigit(c) || c == '.') ==> Bytes(s) == |s|
  {
    if s == "" {
    } else {
      BytesAreBounded(s[1..]);
      assert s[0] in s;
    }
  }

  /** An accepted name never makes a reply too large, for any stamp of up to 127 characters. */
  lemma ReplyFits(name: string, micros: nat)
    requires ValidateName(name) == Ok(name) && |PrintFixed(micros, STAMP_PLACES)| <= 127
    ensures Bytes(Reply(name, micros)) <= MAX_MESSAGE_BYTES
  {
    AcceptedName(name);
    var stamp := PrintFixed(micros, STAMP_PLACES);
    BytesOfConcatenation(name + " ", stamp);
    BytesOfConcatenation(name, " ");
    BytesAreBounded(name);
    PrintedEnds(micros, STAMP_PLACES);
    BytesAreBounded(stamp);
    assert Bytes(" ") == 1;
  }
}
