/** Receiving an HTTP header section (lib/com.c): looking for the empty line that ends it
    (section 2.1 of RFC 9112) while the bytes arrive in pieces. */
module ComHeader {
  import opened Wrappers

  const CR: char := '\r'
  const LF: char := '\n'
  const RETRY_MAX: nat := 10

  /** The four bytes at i end a header section. */
  predicate DelimiterAt(s: string, i: int) {
    0 <= i && i + 4 <= |s| && s[i] == CR && s[i + 1] == LF && s[i + 2] == CR && s[i + 3] == LF
  }

  lemma DelimiterExactly(s: string, i: nat)
    ensures DelimiterAt(s, i) <==> i + 4 <= |s| && s[i..i + 4] == "\r\n\r\n"
  {
    if i + 4 <= |s| {
      var four := s[i..i + 4];
      assert forall k :: 0 <= k < 4 ==> four[k] == s[i + k];
      assert DelimiterAt(s, i) ==> four == [CR, LF, CR, LF];
    }
  }

  ghost predicate HasDelimiter(s: string) { exists i :: DelimiterAt(s, i) }

  /** Nothing before `end` begins a delimiter. */
  ghost predicate NoneBefore(s: string, start: int, end: int) {
    forall i :: start <= i < end ==> !DelimiterAt(s, i)
  }

  /** scan_delimiter from `start`: the position after the first delimiter. */
  method ScanDelimiter(s: string, start: nat) returns (after: Option<nat>)
    requires start <= |s|
    ensures after.None? <==> NoneBefore(s, start, |s|)
    ensures after.Some? ==>
      start + 4 <= after.value && DelimiterAt(s, after.value - 4) && NoneBefore(s, start, after.value - 4)
  {
    var p := start;
    while p + 4 <= |s|
      invariant start <= p && NoneBefore(s, start, p)
    {
      if s[p + 3] == LF {
        if s[p + 2] == CR {
          if s[p + 1] == LF {
            if s[p] == CR { assert DelimiterAt(s, p); return Some(p + 4); }
            p := p + 2;
          } else {
            p := p + 2;
          }
        } else {
          p := p + 4;
        }
      } else {
        p := p + if s[p + 3] == CR then 1 else 4;
      }
    }
    return None;
  }

  // ----- receiving -----

  /** What one call of recv gives: bytes (possibly none), a passing condition, or an error. */
  datatype Event = Bytes(chunk: string) | TryAgain | Broken

  datatype Outcome = Complete | GaveUp | Failed | Waiting

  /** Everything received by these calls after `first`. */
  function Received(first: string, events: seq<Event>): string {
    if events == [] then first
    else
      var before := Received(first, events[..|events| - 1]);
      var last := events[|events| - 1];
      if last.Bytes? then before + last.chunk else before
  }

  function Empties(events: seq<Event>): nat {
    if events == [] then 0 else Empties(events[..|events| - 1]) + if events[|events| - 1] == Bytes("") then 1 else 0
  }

  /** Where receiving stands after these calls, told from everything received. */
  ghost function Verdict(first: string, events: seq<Event>): Outcome {
    if HasDelimiter(Received(first, events)) then Complete
    else if events != [] && events[|events| - 1].Broken? then Failed
    else if Empties(events) > RETRY_MAX then GaveUp
    else Waiting
  }

  /** The calls that brought nothing, wherever they came. */
  lemma {:induction false} EmptiesExactly(events: seq<Event>)
    ensures Empties(events) == multiset(events)[Bytes("")]
  {
    if events != [] {
      var n := |events| - 1;
      EmptiesExactly(events[..n]);
      assert events == events[..n] + [events[n]];
    }
  }

  // ----- how the input is split does not matter -----

  predicate IsData(e: Event) { e.Bytes? && e.chunk != "" }

  predicate AllData(events: seq<Event>) { forall i :: 0 <= i < |events| ==> IsData(events[i]) }

  function Joined(events: seq<Event>): string {
    if events == [] then "" else (if events[0].Bytes? then events[0].chunk else "") + Joined(events[1..])
  }

  lemma {:induction false} JoinedSplits(a: seq<Event>, b: seq<Event>)
    ensures Joined(a + b) == Joined(a) + Joined(b)
  {
    if a == [] {
      assert a + b == b;
    } else {
      assert (a + b)[1..] == a[1..] + b;
      JoinedSplits(a[1..], b);
    }
  }

  /** What one call brings; several bring theirs in order (JoinedSplits). */
  lemma JoinedOfOne(e: Event)
    ensures Joined([]) == "" && Joined([e]) == if e.Bytes? then e.chunk else ""
  {
    assert [e][1..] == [];
  }

  lemma {:induction false} ReceivedIsJoined(first: string, events: seq<Event>)
    ensures Received(first, events) == first + Joined(events)
  {
    if events != [] {
      var n := |events| - 1;
      ReceivedIsJoined(first, events[..n]);
      JoinedSplits(events[..n], events[n..]);
      assert events == events[..n] + events[n..] && events[n..][1..] == [];
    }
  }

  /** Where receiving stands: complete with a delimiter in what was received, failed at an error,
      given up at the eleventh empty answer, and otherwise still waiting. */
  lemma VerdictExactly(first: string, events: seq<Event>)
    ensures Verdict(first, events) == Complete <==> HasDelimiter(first + Joined(events))
    ensures Verdict(first, events) == Failed <==>
      !HasDelimiter(first + Joined(events)) && events != [] && events[|events| - 1] == Broken
    ensures Verdict(first, events) == GaveUp <==>
      !HasDelimiter(first + Joined(events)) && !(events != [] && events[|events| - 1] == Broken)
      && multiset(events)[Bytes("")] >= 11
  {
    ReceivedIsJoined(first, events);
    EmptiesExactly(events);
  }

  lemma {:induction false} NoEmpties(events: seq<Event>)
    requires AllData(events)
    ensures Empties(events) == 0
  {
    if events != [] { NoEmpties(events[..|events| - 1]); }
  }

  lemma DelimiterStays(part: string, rest: string)
    requires HasDelimiter(part)
    ensures HasDelimiter(part + rest)
  {
    var i :| DelimiterAt(part, i);
    assert DelimiterAt(part + rest, i);
  }

  lemma ReceivedBefore(first: string, events: seq<Event>, used: nat)
    requires used <= |events|
    ensures first + Joined(events) == Received(first, events[..used]) + Joined(events[used..])
  {
    ReceivedIsJoined(first, events[..used]);
    JoinedSplits(events[..used], events[used..]);
    assert events == events[..used] + events[used..];
  }

  lemma VerdictOfData(first: string, events: seq<Event>)
    requires AllData(events)
    ensures Verdict(first, events) == if HasDelimiter(Received(first, events)) then Complete else Waiting
  {
    NoEmpties(events);
    assert events != [] ==> IsData(events[|events| - 1]);
  }

  /** Without errors and empty answers, receiving ends exactly when the whole input holds a
      delimiter: where the pieces were cut plays no part. */
  lemma CutsDoNotMatter(first: string, events: seq<Event>, used: nat)
    requires AllData(events)
    requires used <= |events| && (Verdict(first, events[..used]) == Waiting ==> used == |events|)
    ensures Verdict(first, events[..used]) == if HasDelimiter(first + Joined(events)) then Complete else Waiting
  {
    VerdictOfData(first, events[..used]);
    ReceivedBefore(first, events, used);
    var part, rest := Received(first, events[..used]), Joined(events[used..]);
    if HasDelimiter(part) {
      DelimiterStays(part, rest);
    } else {
      assert part + rest == part;
    }
  }

  // ----- the loop -----

  /** The bytes before the new ones need only be looked at three back. */
  lemma OnlyTheEndMatters(before: string, chunk: string, start: nat)
    requires !HasDelimiter(before)
    requires start == |before| - if |before| > 3 then 3 else |before|
    ensures HasDelimiter(before + chunk) <==> !NoneBefore(before + chunk, start, |before + chunk|)
  {
    var s := before + chunk;
    if HasDelimiter(s) {
      var i :| DelimiterAt(s, i);
      assert DelimiterAt(before, i) <==> i + 4 <= |before|;
    }
  }

  /** The loop of grn_com_recv_text.  For every way in which the input is split, it takes exactly
      the calls up to the first after which the bytes so far hold a delimiter (or an error, or one
      empty answer too many), and keeps every byte in order. */
  method ReceiveText(first: string, events: seq<Event>) returns (buf: string, used: nat, outcome: Outcome)
    ensures used <= |events| && buf == Received(first, events[..used])
    ensures outcome == Verdict(first, events[..used])
    ensures forall k :: 0 <= k < used ==> Verdict(first, events[..k]) == Waiting
    ensures outcome == Waiting ==> used == |events|
  {
    buf, used, outcome := first, 0, Waiting;
    var found := ScanDelimiter(buf, 0);
    assert events[..0] == [];
    if found.Some? { outcome := Complete; return; }
    var retry := 0;
    while used < |events| && outcome == Waiting
      invariant used <= |events| && buf == Received(first, events[..used])
      invariant retry == Empties(events[..used])
      invariant outcome == Verdict(first, events[..used])
      invariant forall k :: 0 <= k < used ==> Verdict(first, events[..k]) == Waiting
    {
      var e := events[used];
      assert events[..used + 1][..used] == events[..used];
      used := used + 1;
      match e {
        case Bytes(chunk) =>
          var start := |buf| - if |buf| > 3 then 3 else |buf|;
          OnlyTheEndMatters(buf, chunk, start);
          buf := buf + chunk;
          if chunk != "" {
            found := ScanDelimiter(buf, start);
            if found.Some? { outcome := Complete; }
          } else {
            retry := retry + 1;
            if retry > RETRY_MAX { outcome := GaveUp; }
          }
        case TryAgain =>
        case Broken => outcome := Failed;
      }
    }
  }

  /** What is set in the message header when an HTTP header section is complete: its first byte,
      and its length as an unsigned 32-bit number. */
  datatype Header = Header(qtype: char, size: nat)

  /** grn_com_recv_text: the header is set exactly when the section is complete. */
  method RecvText(first: string, events: seq<Event>) returns (buf: string, outcome: Outcome, header: Option<Header>)
    ensures exists used :: 0 <= used <= |events| && buf == Received(first, events[..used])
              && outcome == Verdict(first, events[..used]) && (outcome == Waiting ==> used == |events|)
    ensures header.Some? <==> HasDelimiter(buf)
    ensures header.Some? ==> outcome == Complete && |buf| >= 4 && header.value == Header(buf[0], |buf| % 0x1_0000_0000)
  {
    var used: nat;
    buf, used, outcome := ReceiveText(first, events);
    header := None;
    if outcome == Complete { header := Some(Header(buf[0], |buf| % 0x1_0000_0000)); }
  }
}
