/**
 * The four tool stubs an agent can call. Each takes strings and answers with
 * a string that is handed back to the language model as an observation; an
 * invalid argument is reported in that string, never raised. `Classify`
 * recovers the kind of failure from an answer, so that the contracts can say
 * which inputs fail and which succeed.
 */
module Tools {
  import opened Wrappers
  import opened PyText
  import opened DateTimes

  // The fixed texts are written as short phrases joined together, so that
  // the verifier can look at their first characters.
  const ErrorTag: string := "Erro: "
  const InvalidEmailPrefix: string := ErrorTag + "Endereço " + "de e-mail inválido: "
  const InvalidFormatError: string := ErrorTag + "Formato " + "de data/hora inválido. " + "Use 'AAAA-MM-DD HH:MM'."
  const StartNotBeforeEndError: string := ErrorTag + "A data/hora " + "de início deve ser anterior " + "à data/hora de término."
  const EmptyChannelError: string := ErrorTag + "O canal " + "do Slack não pode ser vazio."

  /** The failures the tools report. */
  datatype ToolError = InvalidEmail(address: string) | InvalidFormat | StartNotBeforeEnd | EmptyChannel

  /** The failure an answer reports, if any. */
  function Classify(observation: string): Option<ToolError> {
    if InvalidEmailPrefix <= observation then Some(InvalidEmail(observation[|InvalidEmailPrefix|..]))
    else if observation == InvalidFormatError then Some(InvalidFormat)
    else if observation == StartNotBeforeEndError then Some(StartNotBeforeEnd)
    else if observation == EmptyChannelError then Some(EmptyChannel)
    else None
  }

  /** Every failure text starts with "Er"; an answer whose second character
      is not `r` is a success. */
  lemma SuccessTextIsNoError(observation: string)
    requires |observation| >= 2 && observation[1] != 'r'
    ensures Classify(observation) == None
  {
    assert InvalidEmailPrefix[1] == 'r';
    assert InvalidFormatError[1] == StartNotBeforeEndError[1] == EmptyChannelError[1] == 'r';
  }

  /** Each fixed failure text is recognised as its own kind. */
  lemma FixedErrorsClassified()
    ensures Classify(InvalidFormatError) == Some(InvalidFormat)
    ensures Classify(StartNotBeforeEndError) == Some(StartNotBeforeEnd)
    ensures Classify(EmptyChannelError) == Some(EmptyChannel)
  {
    assert InvalidEmailPrefix[6] == 'E';
    assert InvalidFormatError[6] == 'F';
    assert StartNotBeforeEndError[6] == 'A';
    assert EmptyChannelError[6] == 'O';
    assert InvalidFormatError[7] != StartNotBeforeEndError[7];
  }

  // ---------------------------------------------------------------------
  // send_email_function

  /** Simulated e-mail: the recipient must contain an `@`. */
  function SendEmail(recipientEmail: string, subject: string, body: string): string {
    if '@' !in recipientEmail then InvalidEmailPrefix + recipientEmail
    else "E-mail com assunto '" + subject + "' enviado com sucesso para " + recipientEmail + "."
  }

  lemma SendEmailOutcome(recipientEmail: string, subject: string, body: string)
    ensures Classify(SendEmail(recipientEmail, subject, body))
         == if '@' in recipientEmail then None else Some(InvalidEmail(recipientEmail))
    ensures '@' in recipientEmail ==>
      SendEmail(recipientEmail, subject, body)
      == "E-mail com assunto '" + subject + "' enviado com sucesso para " + recipientEmail + "."
  {
    var r := SendEmail(recipientEmail, subject, body);
    if '@' in recipientEmail {
      SuccessTextIsNoError(r);
    } else {
      assert InvalidEmailPrefix <= r && r[|InvalidEmailPrefix|..] == recipientEmail;
    }
  }

  // ---------------------------------------------------------------------
  // The start/end validation shared by the two calendar tools

  /** Both texts are datetimes in the `%Y-%m-%d %H:%M` layout. */
  predicate BothParse(startTime: string, endTime: string) {
    Parse(startTime).Some? && Parse(endTime).Some?
  }

  /** Both parse and the start is strictly earlier than the end in elapsed time. */
  predicate IsInterval(startTime: string, endTime: string) {
    BothParse(startTime, endTime) && Minutes(Parse(startTime).value) < Minutes(Parse(endTime).value)
  }

  datatype IntervalCheck = BadFormat | NotOrdered(start: DateTime, end: DateTime) | Ordered(start: DateTime, end: DateTime)

  /** The `try` block of both calendar tools: parse the start, then the end,
      then reject `start_dt >= end_dt`. */
  function CheckInterval(startTime: string, endTime: string): (v: IntervalCheck)
    ensures v.BadFormat? <==> !BothParse(startTime, endTime)
    ensures !v.BadFormat? ==> Parse(startTime) == Some(v.start) && Parse(endTime) == Some(v.end)
    ensures v.Ordered? <==> IsInterval(startTime, endTime)
  {
    match Parse(startTime)
    case None => BadFormat
    case Some(s) =>
      match Parse(endTime)
      case None => BadFormat
      case Some(e) =>
        BeforeIsElapsedTime(s, e);
        if !Before(s, e) then NotOrdered(s, e) else Ordered(s, e)
  }

  // ---------------------------------------------------------------------
  // create_calendar_event_function

  /** Simulated event creation. `description` is only printed by the tool. */
  function CreateCalendarEvent(title: string, startTime: string, endTime: string, attendees: string, description: string): string {
    match CheckInterval(startTime, endTime)
    case BadFormat => InvalidFormatError
    case NotOrdered(_, _) => StartNotBeforeEndError
    case Ordered(_, _) => ScheduledText(title, startTime, endTime, attendees)
  }

  /** The confirmation of a scheduled event. */
  function ScheduledText(title: string, startTime: string, endTime: string, attendees: string): string {
    "Evento '" + title + "' agendado com sucesso de " + startTime + " a " + endTime + " com " + attendees + "."
  }

  /** A confirmation is never read back as a failure. */
  lemma ScheduledTextIsNoError(title: string, startTime: string, endTime: string, attendees: string)
    ensures Classify(ScheduledText(title, startTime, endTime, attendees)) == None
  {
    var r := ScheduledText(title, startTime, endTime, attendees);
    assert r[1] == 'v';
    SuccessTextIsNoError(r);
  }

  /** The format error comes first, then the ordering error; otherwise the
      event is confirmed with its title, times and attendees as given. */
  lemma CreateCalendarEventOutcome(title: string, startTime: string, endTime: string, attendees: string, description: string)
    ensures !BothParse(startTime, endTime) ==>
      CreateCalendarEvent(title, startTime, endTime, attendees, description) == InvalidFormatError
    ensures BothParse(startTime, endTime) && !IsInterval(startTime, endTime) ==>
      CreateCalendarEvent(title, startTime, endTime, attendees, description) == StartNotBeforeEndError
    ensures IsInterval(startTime, endTime) ==>
      CreateCalendarEvent(title, startTime, endTime, attendees, description)
      == "Evento '" + title + "' agendado com sucesso de " + startTime + " a " + endTime + " com " + attendees + "."
  {
    var v := CheckInterval(startTime, endTime);
  }

  /** Which answers of CreateCalendarEvent are failures, and of which kind. */
  lemma CreateCalendarEventClassified(title: string, startTime: string, endTime: string, attendees: string, description: string)
    ensures Classify(CreateCalendarEvent(title, startTime, endTime, attendees, description))
         == if !BothParse(startTime, endTime) then Some(InvalidFormat)
            else if !IsInterval(startTime, endTime) then Some(StartNotBeforeEnd)
            else None
  {
    CreateCalendarEventOutcome(title, startTime, endTime, attendees, description);
    var r := CreateCalendarEvent(title, startTime, endTime, attendees, description);
    if !BothParse(startTime, endTime) {
      assert r == InvalidFormatError;
      FixedErrorsClassified();
    } else if !IsInterval(startTime, endTime) {
      assert r == StartNotBeforeEndError;
      FixedErrorsClassified();
    } else {
      ScheduledTextIsNoError(title, startTime, endTime, attendees);
    }
  }

  /** A rejected event is rejected with the same text whatever its title,
      attendees and description. */
  lemma CreateCalendarEventErrorIgnoresDetails(startTime: string, endTime: string,
                                               title: string, attendees: string, description: string,
                                               title': string, attendees': string, description': string)
    requires !IsInterval(startTime, endTime)
    ensures CreateCalendarEvent(title, startTime, endTime, attendees, description)
         == CreateCalendarEvent(title', startTime, endTime, attendees', description')
  {
  }

  // ---------------------------------------------------------------------
  // check_calendar_availability_function

  /** `[a.strip() for a in pieces if a.strip()]` */
  function NonBlankStripped(pieces: seq<string>): (r: seq<string>)
    ensures forall i :: 0 <= i < |r| ==> r[i] != [] && Stripped(r[i])
  {
    if pieces == [] then [] else NonBlank(Strip(pieces[0])) + NonBlankStripped(pieces[1..])
  }

  /** `[x] if x else []` */
  function NonBlank(x: string): seq<string> {
    if x == [] then [] else [x]
  }

  /** The comprehension keeps the order of the pieces, duplicates included. */
  lemma {:induction false} NonBlankStrippedAppend(a: seq<string>, b: seq<string>)
    ensures NonBlankStripped(a + b) == NonBlankStripped(a) + NonBlankStripped(b)
  {
    if a == [] {
      assert a + b == b;
    } else {
      var head := NonBlank(Strip(a[0]));
      calc {
        NonBlankStripped(a + b);
        { assert (a + b)[0] == a[0] && (a + b)[1..] == a[1..] + b; }
        head + NonBlankStripped(a[1..] + b);
        { NonBlankStrippedAppend(a[1..], b); }
        head + (NonBlankStripped(a[1..]) + NonBlankStripped(b));
        NonBlankStripped(a) + NonBlankStripped(b);
      }
    }
  }

  /** Trimming pieces that lack a character yields names that lack it too. */
  lemma {:induction false} NonBlankStrippedLacks(pieces: seq<string>, c: char)
    requires forall i :: 0 <= i < |pieces| ==> c !in pieces[i]
    ensures forall i :: 0 <= i < |NonBlankStripped(pieces)| ==> c !in NonBlankStripped(pieces)[i]
  {
    if pieces != [] {
      StripLacks(pieces[0], c);
      NonBlankStrippedLacks(pieces[1..], c);
    }
  }

  /** `attendee_list`: the comma-separated attendees, trimmed, blanks dropped. */
  function AttendeeList(attendees: string): (r: seq<string>)
    ensures forall i :: 0 <= i < |r| ==> r[i] != [] && Stripped(r[i]) && ',' !in r[i]
  {
    NonBlankStrippedLacks(Split(attendees, ','), ',');
    NonBlankStripped(Split(attendees, ','))
  }

  /** Names in the form AttendeeList produces survive `', '.join` and being
      read back as an attendee list. */
  lemma AttendeeListOfJoin(names: seq<string>)
    requires forall i :: 0 <= i < |names| ==> names[i] != [] && Stripped(names[i]) && ',' !in names[i]
    ensures AttendeeList(Join(names, ", ")) == names
  {
    AttendeeListOfPaddedJoin("", names);
    assert "" + Join(names, ", ") == Join(names, ", ");
  }

  /** A comma splits the attendee list in two. */
  lemma AttendeeListAround(a: string, b: string)
    ensures AttendeeList(a + "," + b) == AttendeeList(a) + AttendeeList(b)
  {
    SplitAround(a, b, ',');
    NonBlankStrippedAppend(Split(a, ','), Split(b, ','));
  }

  /** Text without a comma is one attendee, or none when it is blank. */
  lemma AttendeeListOfPiece(pad: string, x: string)
    requires AllSpace(pad) && Stripped(x) && ',' !in x
    ensures AttendeeList(pad + x) == if x == [] then [] else [x]
  {
    assert ',' !in pad + x by {
      forall i | 0 <= i < |pad + x| ensures (pad + x)[i] != ',' {
        if i < |pad| { assert IsSpace(pad[i]); } else { assert (pad + x)[i] == x[i - |pad|]; }
      }
    }
    var piece := pad + x;
    StripPadded(pad, x, []);
    assert Strip(piece) == x by { assert pad + x + [] == piece; }
    calc {
      AttendeeList(piece);
      NonBlankStripped(Split(piece, ','));
      { SplitWithoutSeparator(piece, ','); }
      NonBlankStripped([piece]);
      { assert [piece][1..] == []; }
      (if x == [] then [] else [x]) + NonBlankStripped([]);
    }
  }

  lemma {:induction false} AttendeeListOfPaddedJoin(pad: string, names: seq<string>)
    requires AllSpace(pad)
    requires forall i :: 0 <= i < |names| ==> names[i] != [] && Stripped(names[i]) && ',' !in names[i]
    ensures AttendeeList(pad + Join(names, ", ")) == names
    decreases |names|
  {
    if names == [] {
      AttendeeListOfPiece(pad, []);
      assert pad + [] == pad;
    } else if |names| == 1 {
      AttendeeListOfPiece(pad, names[0]);
    } else {
      var x, rest := names[0], Join(names[1..], ", ");
      assert Join(names, ", ") == x + ", " + rest;
      assert ", " == "," + " ";
      assert pad + Join(names, ", ") == (pad + x) + "," + (" " + rest);
      calc {
        AttendeeList(pad + Join(names, ", "));
        AttendeeList((pad + x) + "," + (" " + rest));
        { AttendeeListAround(pad + x, " " + rest); }
        AttendeeList(pad + x) + AttendeeList(" " + rest);
        { AttendeeListOfPiece(pad, x); }
        [x] + AttendeeList(" " + rest);
        { assert AllSpace(" "); AttendeeListOfPaddedJoin(" ", names[1..]); }
        [x] + names[1..];
      }
    }
  }

  /** The attendees, in order, for which the per-attendee draw says
      "unavailable"; `draw(i)` stands for `random.random() < 0.2` on the i-th
      attendee. */
  function Unavailable(attendeeList: seq<string>, draw: nat -> bool): (r: seq<string>)
    ensures |r| <= |attendeeList|
    ensures forall j :: 0 <= j < |r| ==> r[j] in attendeeList
  {
    if attendeeList == [] then []
    else
      var n := |attendeeList| - 1;
      var r := Unavailable(attendeeList[..n], draw) + (if draw(n) then [attendeeList[n]] else []);
      assert forall x :: x in attendeeList[..n] ==> x in attendeeList;
      r
  }

  /** The positions below n whose draw fires, in increasing order. */
  function Fired(n: nat, draw: nat -> bool): (r: seq<nat>)
    ensures forall j :: 0 <= j < |r| ==> r[j] < n
    ensures forall j, k :: 0 <= j < k < |r| ==> r[j] < r[k]
    ensures forall i :: 0 <= i < n ==> (draw(i) <==> i in r)
  {
    if n == 0 then [] else Fired(n - 1, draw) + (if draw(n - 1) then [n - 1] else [])
  }

  /** The unavailable attendees are the attendees at the fired positions, in
      the order of the attendee list. */
  lemma {:induction false} UnavailableAtFired(attendeeList: seq<string>, draw: nat -> bool)
    ensures var u, idx := Unavailable(attendeeList, draw), Fired(|attendeeList|, draw);
      |u| == |idx| && forall j :: 0 <= j < |idx| ==> u[j] == attendeeList[idx[j]]
  {
    if attendeeList != [] {
      var n := |attendeeList| - 1;
      var front := attendeeList[..n];
      UnavailableAtFired(front, draw);
      var u, idx := Unavailable(front, draw), Fired(n, draw);
      forall j | 0 <= j < |idx| ensures u[j] == attendeeList[idx[j]] {
        assert front[idx[j]] == attendeeList[idx[j]];
      }
    }
  }

  /** Nobody is unavailable exactly when no draw for an attendee fires. */
  lemma AllAvailableIffNoDrawFires(attendeeList: seq<string>, draw: nat -> bool)
    ensures Unavailable(attendeeList, draw) == [] <==> forall i :: 0 <= i < |attendeeList| ==> !draw(i)
  {
    UnavailableAtFired(attendeeList, draw);
    var idx := Fired(|attendeeList|, draw);
    if idx == [] {
      forall i | 0 <= i < |attendeeList| ensures !draw(i) {
        assert i !in idx;
      }
    } else {
      assert draw(idx[0]) && idx[0] < |attendeeList|;
    }
  }

  /** With a draw that never fires, everybody is available. */
  lemma {:induction false} NoDrawNoneUnavailable(attendeeList: seq<string>, draw: nat -> bool)
    requires forall i :: !draw(i)
    ensures Unavailable(attendeeList, draw) == []
  {
    if attendeeList != [] {
      NoDrawNoneUnavailable(attendeeList[..|attendeeList| - 1], draw);
    }
  }

  /** With a draw that always fires, every attendee is unavailable. */
  lemma {:induction false} AlwaysDrawAllUnavailable(attendeeList: seq<string>, draw: nat -> bool)
    requires forall i :: draw(i)
    ensures Unavailable(attendeeList, draw) == attendeeList
  {
    if attendeeList != [] {
      var n := |attendeeList| - 1;
      AlwaysDrawAllUnavailable(attendeeList[..n], draw);
      assert attendeeList == attendeeList[..n] + [attendeeList[n]];
    }
  }

  /** The availability answer once the interval is accepted. */
  function AvailabilityText(startTime: string, endTime: string, attendees: string, unavailable: seq<string>): string {
    if unavailable != [] then
      "Os seguintes participantes " + "estão indisponíveis entre " + startTime + " e " + endTime + ": "
      + Join(unavailable, ", ") + ". Sugira outro horário."
    else
      "Todos os participantes (" + attendees + ") estão disponíveis " + "entre " + startTime + " e " + endTime + "."
  }

  /** The unavailable attendees named in the answer are read back, by the
      same tokenizer, as exactly the unavailable attendees. */
  lemma UnavailableNamesReadBack(attendees: string, draw: nat -> bool)
    ensures var u := Unavailable(AttendeeList(attendees), draw);
      AttendeeList(Join(u, ", ")) == u
  {
    var l := AttendeeList(attendees);
    var u := Unavailable(l, draw);
    UnavailableAtFired(l, draw);
    forall j | 0 <= j < |u| ensures u[j] != [] && Stripped(u[j]) && ',' !in u[j] {
      assert u[j] == l[Fired(|l|, draw)[j]];
    }
    AttendeeListOfJoin(u);
  }

  /** An availability answer is never a failure. */
  lemma AvailabilityTextIsNoError(startTime: string, endTime: string, attendees: string, unavailable: seq<string>)
    ensures Classify(AvailabilityText(startTime, endTime, attendees, unavailable)) == None
  {
    SuccessTextIsNoError(AvailabilityText(startTime, endTime, attendees, unavailable));
  }

  /** The loop of the tool: attendee i is unavailable when draw i fires. */
  method CollectUnavailable(attendeeList: seq<string>, draw: nat -> bool) returns (unavailable: seq<string>)
    ensures unavailable == Unavailable(attendeeList, draw)
  {
    unavailable := [];
    for i := 0 to |attendeeList|
      invariant unavailable == Unavailable(attendeeList[..i], draw)
    {
      if draw(i) {
        unavailable := unavailable + [attendeeList[i]];
      }
      assert attendeeList[..i + 1][..i] == attendeeList[..i];
    }
    assert attendeeList[..|attendeeList|] == attendeeList;
  }

  /** Simulated availability check: the same validation as event creation,
      then one draw per attendee in order. */
  method CheckCalendarAvailability(startTime: string, endTime: string, attendees: string, draw: nat -> bool)
    returns (r: string)
    ensures !BothParse(startTime, endTime) ==> r == InvalidFormatError
    ensures BothParse(startTime, endTime) && !IsInterval(startTime, endTime) ==> r == StartNotBeforeEndError
    ensures IsInterval(startTime, endTime) ==>
      r == AvailabilityText(startTime, endTime, attendees, Unavailable(AttendeeList(attendees), draw))
  {
    var interval := CheckInterval(startTime, endTime);
    if interval.BadFormat? {
      return InvalidFormatError;
    }
    if interval.NotOrdered? {
      return StartNotBeforeEndError;
    }
    var unavailable := CollectUnavailable(AttendeeList(attendees), draw);
    r := AvailabilityText(startTime, endTime, attendees, unavailable);
  }

  // ---------------------------------------------------------------------
  // post_slack_message_function

  /** Simulated chat post: the channel must not be blank. */
  function PostSlackMessage(channel: string, message: string): string {
    if Strip(channel) == [] then EmptyChannelError
    else "Mensagem postada " + "com sucesso no canal #" + channel + "."
  }

  lemma PostSlackMessageOutcome(channel: string, message: string)
    ensures AllSpace(channel) ==> PostSlackMessage(channel, message) == EmptyChannelError
    ensures !AllSpace(channel) ==>
      PostSlackMessage(channel, message) == "Mensagem postada " + "com sucesso no canal #" + channel + "."
    ensures Classify(PostSlackMessage(channel, message)) == if AllSpace(channel) then Some(EmptyChannel) else None
  {
    FixedErrorsClassified();
    if !AllSpace(channel) {
      SuccessTextIsNoError(PostSlackMessage(channel, message));
    }
  }
}
