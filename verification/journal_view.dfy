/** The decision rules of the journal view: sending a message, choosing the
    "unsummarized tail" (the user's messages after the most recent AI reply),
    skipping the summary request when there is nothing to send, and the
    silent handling of a failed request. The network call itself is an
    input: the response it produced. */
module JournalView {
  import opened Common
  import opened Text
  import opened State
  import DayKey

  /** The separator placed between the tail's texts in the request body. */
  const Separator := "\n\n--- 분리 ---\n\n"

  /** The reply stored when a successful response carries no text. */
  const FallbackReply := "AI가 응답을 생성하지 못했습니다."

  // ---------------------------------------------------------------------
  // The date the journal is keyed on
  // ---------------------------------------------------------------------

  /** What the calendar stores as the selected date when a day is picked:
      the key of that day, a string. */
  function CalendarSelection(picked: DayKey.DateParts, now: DayKey.DateParts): (k: string)
    requires DayKey.ValidParts(picked) && DayKey.ValidParts(now)
    ensures k == DayKey.KeyOf(picked)
  {
    DayKey.ToDay(DayKey.ADate(picked), now)
  }

  /** The journal's key as written: the selected date is passed to the
      encoder, which expects a Date; being a string, it is replaced by the
      clock, so the selection plays no part. */
  function JournalKeyAsWritten(selectedDate: string, now: DayKey.DateParts): (k: string)
    requires DayKey.ValidParts(now)
    ensures k == DayKey.KeyOf(now)
  {
    DayKey.ToDay(DayKey.NotADate, now)
  }

  /** The defect: with 2024-01-01 picked on 2024-01-02, the journal reads
      and writes the messages of 2024-01-02. */
  lemma JournalKeyAsWrittenIgnoresSelection()
    ensures var picked := DayKey.DateParts(2024, 0, 1);
            var now := DayKey.DateParts(2024, 0, 2);
            JournalKeyAsWritten(CalendarSelection(picked, now), now) != CalendarSelection(picked, now)
  {
    var picked := DayKey.DateParts(2024, 0, 1);
    var now := DayKey.DateParts(2024, 0, 2);
    DayKey.ParseKeyOf(picked);
    DayKey.ParseKeyOf(now);
  }

  /** The journal's key with the defect removed: the selected date already
      is a key and is used as it is. */
  function JournalKey(selectedDate: string): string {
    selectedDate
  }

  /** With the corrected key the journal follows the calendar: whatever the
      clock says, it shows the day that was picked, and the key reads back
      as that day. */
  lemma JournalKeyFollowsCalendar(picked: DayKey.DateParts, now: DayKey.DateParts)
    requires DayKey.ValidParts(picked) && DayKey.ValidParts(now) && 1000 <= picked.year <= 9999
    ensures DayKey.ParseKey(JournalKey(CalendarSelection(picked, now))) == Some(picked)
  {
    DayKey.ParseKeyOf(picked);
  }

  // ---------------------------------------------------------------------
  // Sending
  // ---------------------------------------------------------------------

  /** `sendMessage`: a blank text does nothing; otherwise one user message
      with the trimmed text is appended to the date's list. */
  function SendMessage(msgs: MessageMap, dateKey: string, text: string, id: string, time: string)
    : (r: MessageMap)
    ensures Blank(text) ==> r == msgs
    ensures !Blank(text) ==>
      && dateKey in r
      && r[dateKey] == ListFor(msgs, dateKey) + [Message(id, Trim(text), time, User)]
      && OthersUnchanged(msgs, r, dateKey)
  {
    if Blank(text) then msgs
    else AddMessage(msgs, dateKey, Message(id, Trim(text), time, User))
  }

  /** Every message that sending stores is a user message whose text is not
      blank and has nothing left to trim. */
  lemma SentMessageIsTrimmed(msgs: MessageMap, dateKey: string, text: string, id: string, time: string)
    requires !Blank(text)
    ensures var l := SendMessage(msgs, dateKey, text, id, time)[dateKey];
            var m := l[|l| - 1];
            m.kind.User? && !Blank(m.text) && Trim(m.text) == m.text
  {
    var l := SendMessage(msgs, dateKey, text, id, time)[dateKey];
    assert l[|l| - 1].text == Trim(text);
    TrimIdempotent(text);
  }

  // ---------------------------------------------------------------------
  // The unsummarized tail
  // ---------------------------------------------------------------------

  /** `findLastIndex(m => m.type === "ai")`: the greatest index of an AI
      message, or -1 when there is none (`LastAiIndexIsLast` shows that
      nothing after it is an AI message). */
  function LastAiIndex(l: seq<Message>): (r: int)
    ensures -1 <= r < |l|
    ensures r >= 0 ==> l[r].kind.Ai?
  {
    if l == [] then -1
    else if l[|l| - 1].kind.Ai? then |l| - 1
    else LastAiIndex(l[..|l| - 1])
  }

  lemma {:induction false} LastAiIndexIsLast(l: seq<Message>)
    ensures forall i :: LastAiIndex(l) < i < |l| ==> !l[i].kind.Ai?
  {
    if l != [] && !l[|l| - 1].kind.Ai? {
      var t := l[..|l| - 1];
      LastAiIndexIsLast(t);
      assert forall i :: 0 <= i < |t| ==> t[i] == l[i];
    }
  }

  /** `LastAiIndex` is characterized by the two facts: an AI message at the
      index (or -1) and none after it. */
  lemma LastAiIndexUnique(l: seq<Message>, k: int)
    requires -1 <= k < |l| && (k >= 0 ==> l[k].kind.Ai?)
    requires forall i :: k < i < |l| ==> !l[i].kind.Ai?
    ensures LastAiIndex(l) == k
  {
    LastAiIndexIsLast(l);
  }

  /** The text of a user message as a one-element list; nothing for any
      other kind. */
  function UserText(m: Message): seq<string> {
    if m.kind.User? then [m.text] else []
  }

  /** The texts of the user messages of `l`, in list order. */
  function UserTexts(l: seq<Message>): seq<string> {
    if l == [] then [] else UserText(l[0]) + UserTexts(l[1..])
  }

  /** The texts to summarize: user messages strictly after the last AI
      message, in their original order. */
  function Tail(l: seq<Message>): seq<string> {
    UserTexts(l[LastAiIndex(l) + 1..])
  }

  lemma {:induction false} UserTextsAppend(a: seq<Message>, b: seq<Message>)
    ensures UserTexts(a + b) == UserTexts(a) + UserTexts(b)
  {
    if a == [] {
      assert a + b == b;
    } else {
      var c := a + b;
      assert c[0] == a[0] && c[1..] == a[1..] + b;
      UserTextsAppend(a[1..], b);
      calc {
        UserTexts(c);
        UserText(a[0]) + UserTexts(a[1..] + b);
        UserText(a[0]) + (UserTexts(a[1..]) + UserTexts(b));
        (UserText(a[0]) + UserTexts(a[1..])) + UserTexts(b);
        UserTexts(a) + UserTexts(b);
      }
    }
  }

  lemma TailOfNoAiIndex(l: seq<Message>)
    requires LastAiIndex(l) == -1
    ensures Tail(l) == UserTexts(l)
  {
    assert l[0..] == l;
  }

  /** With no AI message in the list, the tail is every user message. */
  lemma TailWithoutAi(l: seq<Message>)
    requires forall m :: m in l ==> m.kind != Ai
    ensures Tail(l) == UserTexts(l)
  {
    LastAiIndexUnique(l, -1);
    TailOfNoAiIndex(l);
  }

  /** The tail computed independently, by walking back from the end of the
      list until an AI message is met. */
  method CollectTail(l: seq<Message>) returns (texts: seq<string>)
    ensures texts == Tail(l)
  {
    var i := |l|;
    texts := [];
    while i > 0 && !l[i - 1].kind.Ai?
      invariant 0 <= i <= |l|
      invariant texts == UserTexts(l[i..])
      invariant forall j :: i <= j < |l| ==> !l[j].kind.Ai?
    {
      assert l[i - 1..] == [l[i - 1]] + l[i..];
      UserTextsAppend([l[i - 1]], l[i..]);
      if l[i - 1].kind.User? {
        texts := [l[i - 1].text] + texts;
      }
      i := i - 1;
    }
    LastAiIndexUnique(l, i - 1);
  }

  /** The request body for the summary, or `None` when the joined tail is
      empty and no request is made. */
  function SummaryRequest(l: seq<Message>): (r: Option<string>)
    ensures r.None? ==> Join(Tail(l), Separator) == []
    ensures r.Some? ==> r.value == Join(Tail(l), Separator) && r.value != []
  {
    var joined := Join(Tail(l), Separator);
    if joined == [] then None else Some(joined)
  }

  /** No request is made exactly when the tail is empty or is one empty
      text. */
  lemma SummaryRequestSkipped(l: seq<Message>)
    ensures SummaryRequest(l).None? <==> Tail(l) == [] || (|Tail(l)| == 1 && Tail(l)[0] == [])
  {
    JoinEmptyIff(Tail(l), Separator);
  }

  /** The server's own guard on the request body: a blank body is refused
      with status 400. */
  predicate SummaryRouteAccepts(body: string) {
    !Blank(body)
  }

  /** A tail of messages that were sent through `SendMessage` (so none of
      them is blank) always yields a request the server accepts. */
  lemma SentTailIsAccepted(l: seq<Message>)
    requires Tail(l) != []
    requires forall t :: t in Tail(l) ==> !Blank(t)
    ensures SummaryRequest(l).Some? && SummaryRouteAccepts(SummaryRequest(l).value)
  {
    var tail := Tail(l);
    assert tail[0] in tail;
    BlankIffAllSpace(tail[0]);
    JoinNotBlank(tail, Separator);
  }

  // ---------------------------------------------------------------------
  // The summary round trip
  // ---------------------------------------------------------------------

  /** What the request produced: a non-OK status, a thrown error (network
      failure or unreadable body), or an OK body whose `text` may be absent. */
  datatype SummaryResponse = NotOk | Failed | Ok(text: Option<string>)

  /** `data.text || fallback`. */
  function ReplyText(text: Option<string>): (r: string)
    ensures r != []
    ensures text.Some? && text.value != [] ==> r == text.value
  {
    if text.None? || text.value == [] then FallbackReply else text.value
  }

  /** The reply appended after an OK response; `now` is the clock reading
      that makes its id ("ai-" followed by it) and `time` its displayed
      time. */
  function AiReply(text: Option<string>, now: string, time: string): (m: Message)
    ensures m.kind == Ai && m.text != []
  {
    Message("ai-" + now, ReplyText(text), time, Ai)
  }

  /** The part of `handleAiSummary` after the request has been answered. It
      works on the messages as they are when the answer arrives, which may
      hold messages sent while the request was pending: only an OK response
      appends the reply, at the end of the date's list. */
  function SummaryComplete(current: MessageMap, dateKey: string, resp: SummaryResponse, now: string, time: string)
    : (r: MessageMap)
    ensures !resp.Ok? ==> r == current
    ensures resp.Ok? ==>
      && dateKey in r
      && r[dateKey] == ListFor(current, dateKey) + [AiReply(resp.text, now, time)]
      && OthersUnchanged(current, r, dateKey)
  {
    if resp.Ok? then AddMessage(current, dateKey, AiReply(resp.text, now, time)) else current
  }

  /** `handleAiSummary` when nothing else happens while the request is
      pending: the request is read from the date's list when the button is
      pressed (`SummaryRequest`, which also decides whether the loading flag
      is raised), and the answer is applied to the same messages. */
  function AiSummary(msgs: MessageMap, dateKey: string, resp: SummaryResponse, now: string, time: string)
    : (r: MessageMap)
    ensures SummaryRequest(ListFor(msgs, dateKey)).None? ==> r == msgs
    ensures !resp.Ok? ==> r == msgs
  {
    if SummaryRequest(ListFor(msgs, dateKey)).None? then msgs
    else SummaryComplete(msgs, dateKey, resp, now, time)
  }

  /** After a request answered OK, the reply (or the fallback text) is the
      new last message of the date and every other date is untouched. */
  lemma AiSummaryAppendsReply(msgs: MessageMap, dateKey: string, t: Option<string>, now: string, time: string)
    requires SummaryRequest(ListFor(msgs, dateKey)).Some?
    ensures var r := AiSummary(msgs, dateKey, Ok(t), now, time);
            && dateKey in r
            && r[dateKey] == ListFor(msgs, dateKey) + [Message("ai-" + now, ReplyText(t), time, Ai)]
            && OthersUnchanged(msgs, r, dateKey)
  {
  }

  /** Whatever the messages are when an OK answer arrives, the reply closes
      the tail: right afterwards there is nothing left to summarize. */
  lemma ReplyClosesTail(current: MessageMap, dateKey: string, t: Option<string>, now: string, time: string)
    ensures Tail(ListFor(SummaryComplete(current, dateKey, Ok(t), now, time), dateKey)) == []
  {
    var l := ListFor(SummaryComplete(current, dateKey, Ok(t), now, time), dateKey);
    assert LastAiIndex(l) == |l| - 1;
    assert l[|l|..] == [];
  }

  /** A successful summary closes the tail: pressing the button again right
      away makes no request and changes nothing. */
  lemma SecondSummaryIsNoOp(msgs: MessageMap, dateKey: string, t: Option<string>, now: string, time: string,
                            resp2: SummaryResponse, now2: string, time2: string)
    requires SummaryRequest(ListFor(msgs, dateKey)).Some?
    ensures var r := AiSummary(msgs, dateKey, Ok(t), now, time);
            SummaryRequest(ListFor(r, dateKey)).None? && AiSummary(r, dateKey, resp2, now2, time2) == r
  {
    ReplyClosesTail(msgs, dateKey, t, now, time);
  }

  /** A failed request, whatever the failure, leaves the messages alone. */
  lemma FailedSummaryChangesNothing(msgs: MessageMap, dateKey: string, now: string, time: string)
    ensures AiSummary(msgs, dateKey, NotOk, now, time) == msgs
    ensures AiSummary(msgs, dateKey, Failed, now, time) == msgs
  {
  }

  /** Only the summary button is disabled while the request is pending, so
      a message can be sent in between. It lands before the reply and is
      therefore never part of any request: with "first" on the list, the
      request is "first"; "second" is sent; after the OK answer the list is
      first, second, reply, and its tail is empty. */
  lemma MessageSentDuringSummaryIsSkipped(dateKey: string, t: Option<string>, now: string, time: string)
    ensures var first := Message("1", "first", "t", User);
            var msgs := map[dateKey := [first]];
            var pending := SendMessage(msgs, dateKey, "second", "2", "t");
            var done := SummaryComplete(pending, dateKey, Ok(t), now, time);
            && SummaryRequest(ListFor(msgs, dateKey)) == Some("first")
            && done[dateKey] == [first, Message("2", "second", "t", User), AiReply(t, now, time)]
            && Tail(done[dateKey]) == []
  {
    var first := Message("1", "first", "t", User);
    var l := [first];
    assert LastAiIndex(l) == -1;
    assert l[0..] == l;
    assert UserTexts(l) == ["first"] by {
      assert l[1..] == [];
    }
    TrimStartOfTrimmed("second");
    TrimEndOfTrimmed("second");
    var msgs := map[dateKey := [first]];
    var pending := SendMessage(msgs, dateKey, "second", "2", "t");
    ReplyClosesTail(pending, dateKey, t, now, time);
  }
}
