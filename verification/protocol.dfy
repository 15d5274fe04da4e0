/** The rotator's protocol engine: command encoders, the handshake, the
    five-frame status query, and the move listener that waits for a move to
    finish and performs the return half of an overshoot. */
module Protocol {
  import opened Text
  import opened Angles
  import opened SerialLine
  import opened DeviceState

  /** The probe that asks for identification; it doubles as the status request. */
  const Probe: string := "1500001\n"

  /** The text every identification reply starts with. */
  const Tag: string := "WandererRotator"

  /** The byte that ends every reply field. */
  const FieldStop: char := 'A'

  /** Handshake attempts before giving up. */
  const HandshakeAttempts: nat := 5

  /** Offset of the relative-move command: `1000000 + steps`. */
  const MoveBase: int := 1000000

  /** Offset of the set-backlash command: `1600000 + tenths of a degree`. */
  const BacklashBase: int := 1600000

  // ---------------------------------------------------------------------------
  // Command encoders

  /** A value in degrees as whole tenths of a degree, the C way: `(int)(x * 10)`. */
  function TenthsOf(x: real): int
  {
    Trunc(x * 10.0)
  }

  /** `BacklashToCommand`: the set-backlash command value. */
  function BacklashToCommand(backlash: real): int
  {
    TenthsOf(backlash) + BacklashBase
  }

  /** `ReverseDirectionToCommand`: any non-zero flag selects the reversed direction. */
  function ReverseDirectionToCommand(reverse: int): string
  {
    if reverse != 0 then "1700001\n" else "1700000\n"
  }

  /** The value of a relative move by `angle` degrees. */
  function MoveValue(angle: real, stepsPerDegree: int): int
  {
    MoveBase + Trunc(angle * stepsPerDegree as real)
  }

  /** The backlash command carries the backlash in whole tenths of a degree,
      rounded toward zero: 0.0 gives 1600000 and 2.5 gives 1600025. */
  lemma BacklashCommandMeaning(backlash: real)
    ensures BacklashToCommand(backlash) - BacklashBase == Trunc(10.0 * backlash)
    ensures 0.0 <= backlash ==>
      (BacklashToCommand(backlash) - BacklashBase) as real <= 10.0 * backlash < (BacklashToCommand(backlash) - BacklashBase + 1) as real
    ensures BacklashToCommand(0.0) == 1600000
    ensures BacklashToCommand(2.5) == 1600025
  {
  }

  /** Reading the reverse-direction command as a number gives 1700000 plus the
      normalised flag, and the command is a newline-terminated line. */
  lemma ReverseCommandMeaning(reverse: int)
    ensures ScanInt(ReverseDirectionToCommand(reverse)) == Some(1700000 + (if reverse != 0 then 1 else 0))
    ensures ReverseDirectionToCommand(reverse)[|ReverseDirectionToCommand(reverse)| - 1] == '\n'
  {
    if reverse != 0 {
      ReverseCommandDigits(1700001);
      ScanIntRoundTrip(1700001, "\n");
    } else {
      ReverseCommandDigits(1700000);
      ScanIntRoundTrip(1700000, "\n");
    }
  }

  lemma ReverseCommandDigits(v: int)
    requires v == 1700000 || v == 1700001
    ensures IntToString(v) + "\n" == ReverseDirectionToCommand(if v == 1700001 then 1 else 0)
  {
    assert NatToDigits(1) == "1";
    assert NatToDigits(17) == "17";
    assert NatToDigits(170) == "170";
    assert NatToDigits(1700) == "1700";
    assert NatToDigits(17000) == "17000";
    assert NatToDigits(170000) == "170000";
    assert IntToString(v) == NatToDigits(170000) + [DigitChar(v % 10)];
    if v == 1700001 {
      assert IntToString(v) == "1700001";
    } else {
      assert IntToString(v) == "1700000";
    }
  }

  // ---------------------------------------------------------------------------
  // Sending

  datatype Sent = Sent(ok: bool, device: Device)

  /** `SendCommand`: refuses without writing when the port is missing or closed,
      otherwise writes the command and reports whether all of it went out. */
  function SendCommand(d: Device, cmd: string): (r: Sent)
    ensures !PortReady(d) ==> !r.ok && r.device == d
    ensures PortReady(d) ==> r.ok == (WriteCountAt(d.link, 0) == |cmd|)
    ensures PortReady(d) ==> r.device.link.sent == d.link.sent + [cmd]
    ensures r.device == d.(link := r.device.link)
  {
    if d.port.None? || !IsOpen(d.port.value) then Sent(false, d)
    else
      var w := Write(d.port.value, d.link, cmd);
      Sent(w.ok, d.(link := w.link))
  }

  // ---------------------------------------------------------------------------
  // Handshake

  /** A reply identifies the instrument: some bytes arrived and their text contains the tag. */
  predicate Identifies(reply: seq<char>)
  {
    |reply| > 0 && Contains(CStr(reply), Tag)
  }

  /** Attempt `j` from now writes the whole probe. */
  predicate ProbeWritten(l: Link, j: nat)
  {
    WriteCountAt(l, j) == |Probe|
  }

  /** Attempt `j` from now writes the probe and the reply does not identify the instrument. */
  predicate Unanswered(l: Link, j: nat)
  {
    ProbeWritten(l, j) && !Identifies(ReplyAt(l, j))
  }

  /** Attempt `k` from now is the one that decides: all earlier ones went unanswered. */
  predicate DecidedAt(l: Link, k: nat)
  {
    forall j :: 0 <= j < k ==> Unanswered(l, j)
  }

  /** Attempt `k` from now identifies the instrument after `k` unanswered ones. */
  predicate FoundAt(l: Link, k: nat)
  {
    DecidedAt(l, k) && ProbeWritten(l, k) && Identifies(ReplyAt(l, k))
  }

  /** `sent` extends `before` by exactly `n` probes. */
  predicate ProbesSent(before: seq<string>, after: seq<string>, n: nat)
  {
    |after| == |before| + n && after[..|before|] == before
    && forall i :: |before| <= i < |after| ==> after[i] == Probe
  }

  /** Advancing the line past one attempt shifts every later attempt down by one. */
  lemma AttemptShift(p: SerialPort, l: Link)
    requires IsOpen(p)
    ensures var l' := Receive(p, Write(p, l, Probe).link).link;
      forall j: nat :: WriteCountAt(l', j) == WriteCountAt(l, j + 1) && ReplyAt(l', j) == ReplyAt(l, j + 1)
  {
  }

  /** `n` is the number of probes `left` attempts write: at least one, all of them
      when every attempt goes unanswered, and none after a probe that could not be
      written or after the first reply that identifies the instrument. */
  predicate ProbeCount(l: Link, left: nat, n: nat)
  {
    && n <= left
    && (left > 0 ==> n >= 1)
    && (DecidedAt(l, left) ==> n == left)
    && (forall k :: 0 <= k < left && DecidedAt(l, k) && !ProbeWritten(l, k) ==> n == k + 1)
    && (forall k :: 0 <= k < left && FoundAt(l, k) ==> n == k + 1)
  }

  /** The retry loop of `QueryHandshake` with `left` attempts to go. */
  function Attempts(p: SerialPort, l: Link, left: nat): (r: Written)
    requires IsOpen(p)
    ensures r.ok <==> exists k :: 0 <= k < left && FoundAt(l, k)
    ensures exists n: nat :: ProbeCount(l, left, n) && ProbesSent(l.sent, r.link.sent, n)
    decreases left
  {
    if left == 0 then
      assert ProbesSent(l.sent, l.sent, 0) by {
        assert l.sent[..|l.sent|] == l.sent;
      }
      assert ProbeCount(l, left, 0);
      Written(false, l)
    else
      var w := Write(p, l, Probe);
      if !w.ok then
        assert ProbesSent(l.sent, w.link.sent, 1);
        assert forall k :: 0 <= k < left ==> !FoundAt(l, k) by {
          forall k | 0 <= k < left ensures !FoundAt(l, k) {
            assert !Unanswered(l, 0);
          }
        }
        assert ProbeCount(l, left, 1) by {
          forall k | 0 < k <= left ensures !DecidedAt(l, k) {
            assert !Unanswered(l, 0);
          }
        }
        Written(false, w.link)
      else
        var rd := Receive(p, w.link);
        if Identifies(rd.bytes) then
          assert FoundAt(l, 0);
          assert ProbesSent(l.sent, rd.link.sent, 1);
          assert ProbeCount(l, left, 1) by {
            forall k | 0 < k <= left ensures !DecidedAt(l, k) {
              assert !Unanswered(l, 0);
            }
          }
          Written(true, rd.link)
        else
          var l' := rd.link;
          AttemptShift(p, l);
          assert Unanswered(l, 0);
          var r := Attempts(p, l', left - 1);
          var n: nat :| ProbeCount(l', left - 1, n) && ProbesSent(l'.sent, r.link.sent, n);
          ShiftedAttempts(l, l', left, n);
          ProbesSentAfterOne(l.sent, r.link.sent, n);
          r
  }

  /** `n` probes after a first one are `n + 1` probes. */
  lemma ProbesSentAfterOne(before: seq<string>, after: seq<string>, n: nat)
    requires ProbesSent(before + [Probe], after, n)
    ensures ProbesSent(before, after, n + 1)
  {
    assert after[..|before|] == (before + [Probe])[..|before|];
  }

  /** After one unanswered attempt, the attempts that remain are the later
      attempts of the whole run, one position earlier. */
  lemma ShiftedAttempts(l: Link, l': Link, left: nat, n: nat)
    requires left > 0 && Unanswered(l, 0)
    requires forall j: nat :: WriteCountAt(l', j) == WriteCountAt(l, j + 1) && ReplyAt(l', j) == ReplyAt(l, j + 1)
    requires ProbeCount(l', left - 1, n)
    ensures (exists k :: 0 <= k < left && FoundAt(l, k)) <==> exists k :: 0 <= k < left - 1 && FoundAt(l', k)
    ensures ProbeCount(l, left, n + 1)
  {
    assert forall k :: 0 <= k < left - 1 ==> (FoundAt(l', k) <==> FoundAt(l, k + 1)) by {
      forall k | 0 <= k < left - 1
        ensures FoundAt(l', k) <==> FoundAt(l, k + 1)
      {
        assert DecidedAt(l', k) <==> DecidedAt(l, k + 1) by {
          if DecidedAt(l, k + 1) {
            forall j | 0 <= j < k ensures Unanswered(l', j) {
              assert Unanswered(l, j + 1);
            }
          }
          if DecidedAt(l', k) {
            forall j | 0 <= j < k + 1 ensures Unanswered(l, j) {
              if j > 0 {
                assert Unanswered(l', j - 1);
              }
            }
          }
        }
      }
    }
    if exists k :: 0 <= k < left && FoundAt(l, k) {
      var k :| 0 <= k < left && FoundAt(l, k);
      assert k != 0;
      assert FoundAt(l', k - 1);
    }
    if exists k :: 0 <= k < left - 1 && FoundAt(l', k) {
      var k :| 0 <= k < left - 1 && FoundAt(l', k);
      assert FoundAt(l, k + 1);
    }
    assert DecidedAt(l, left) ==> DecidedAt(l', left - 1) by {
      if DecidedAt(l, left) {
        forall j | 0 <= j < left - 1 ensures Unanswered(l', j) {
          assert Unanswered(l, j + 1);
        }
      }
    }
    assert forall k :: 0 <= k < left && FoundAt(l, k) ==> k >= 1 && FoundAt(l', k - 1) by {
      forall k | 0 <= k < left && FoundAt(l, k) ensures k >= 1 && FoundAt(l', k - 1) {
        assert Unanswered(l, 0) && !Unanswered(l, k);
      }
    }
    assert forall k :: 0 <= k < left && DecidedAt(l, k) && !ProbeWritten(l, k) ==>
      k >= 1 && DecidedAt(l', k - 1) && !ProbeWritten(l', k - 1) by {
      forall k | 0 <= k < left && DecidedAt(l, k) && !ProbeWritten(l, k)
        ensures k >= 1 && DecidedAt(l', k - 1) && !ProbeWritten(l', k - 1)
      {
        forall j | 0 <= j < k - 1 ensures Unanswered(l', j) {
          assert Unanswered(l, j + 1);
        }
      }
    }
  }

  /** `QueryHandshake`: on an open port, probe up to five times; succeed on the
      first reply containing the tag, give up at once when a probe cannot be
      written. The device record changes only in its line. */
  function QueryHandshake(d: Device): (r: Sent)
    ensures r.device == d.(link := r.device.link)
    ensures !PortReady(d) ==> !r.ok && r.device == d
    ensures PortReady(d) ==> (r.ok <==> exists k :: 0 <= k < HandshakeAttempts && FoundAt(d.link, k))
    ensures PortReady(d) ==> exists n: nat :: ProbeCount(d.link, HandshakeAttempts, n) && ProbesSent(d.link.sent, r.device.link.sent, n)
  {
    if d.port.None? || !IsOpen(d.port.value) then Sent(false, d)
    else
      var a := Attempts(d.port.value, d.link, HandshakeAttempts);
      var n: nat :| ProbeCount(d.link, HandshakeAttempts, n) && ProbesSent(d.link.sent, a.link.sent, n);
      Sent(a.ok, d.(link := a.link))
  }

  /** Five unanswered probes: the handshake fails after writing all five. */
  lemma HandshakeGivesUp(d: Device)
    requires PortReady(d) && DecidedAt(d.link, HandshakeAttempts)
    ensures !QueryHandshake(d).ok
    ensures |QueryHandshake(d).device.link.sent| == |d.link.sent| + HandshakeAttempts
  {
    var r := QueryHandshake(d);
    forall k | 0 <= k < HandshakeAttempts ensures !FoundAt(d.link, k) {
      assert Unanswered(d.link, k);
    }
  }

  /** A probe that cannot be written ends the handshake at once, unanswered. */
  lemma HandshakeStopsOnWriteFailure(d: Device)
    requires PortReady(d) && !ProbeWritten(d.link, 0)
    ensures !QueryHandshake(d).ok
    ensures QueryHandshake(d).device.link.sent == d.link.sent + [Probe]
  {
    var r := QueryHandshake(d);
    var n: nat :| ProbeCount(d.link, HandshakeAttempts, n) && ProbesSent(d.link.sent, r.device.link.sent, n);
    assert DecidedAt(d.link, 0);
    assert n == 1;
    assert r.device.link.sent == d.link.sent + [Probe];
  }

  /** The handshake returns at the first reply that identifies the instrument,
      after writing one probe per attempt up to it. */
  lemma HandshakeStopsAtFirstAnswer(d: Device, k: nat)
    requires PortReady(d) && k < HandshakeAttempts && FoundAt(d.link, k)
    ensures QueryHandshake(d).ok
    ensures ProbesSent(d.link.sent, QueryHandshake(d).device.link.sent, k + 1)
  {
    var r := QueryHandshake(d);
    var n: nat :| ProbeCount(d.link, HandshakeAttempts, n) && ProbesSent(d.link.sent, r.device.link.sent, n);
    assert n == k + 1;
  }

  // ---------------------------------------------------------------------------
  // Status query

  /** The longest prefix of `s` without `stop`. */
  function TakeUntil(s: string, stop: char): (t: string)
    ensures t <= s && stop !in t
    ensures |t| < |s| ==> s[|t|] == stop
  {
    if |s| == 0 || s[0] == stop then [] else [s[0]] + TakeUntil(s[1..], stop)
  }

  /** `sscanf(s, "WandererRotator%7[^A]A", model) == 1`: the tag, then one to seven
      characters other than `A`, which are the model name. */
  function ParseModel(s: string): (r: Option<string>)
    ensures r.Some? ==> StartsWith(s, Tag) && 1 <= |r.value| <= 7 && FieldStop !in r.value
    ensures r.Some? ==> StartsWith(s[|Tag|..], r.value)
    ensures r.Some? && |r.value| < 7 ==> |s| == |Tag| + |r.value| || s[|Tag| + |r.value|] == FieldStop
    ensures r.None? <==> !StartsWith(s, Tag) || |s| == |Tag| || s[|Tag|] == FieldStop
  {
    if !StartsWith(s, Tag) then None
    else
      var run := TakeUntil(s[|Tag|..], FieldStop);
      var model := if |run| <= 7 then run else run[..7];
      if |model| == 0 then None else Some(model)
  }

  /** A model name the firmware can report and the parser reads back whole. */
  predicate ValidModelName(m: string)
  {
    1 <= |m| <= 7 && FieldStop !in m && NUL !in m
  }

  /** The identification reply for model `m`, as the instrument sends it. */
  function ModelReply(m: string): string
  {
    Tag + m + [FieldStop]
  }

  /** The model field reads back exactly the model name that was sent. */
  lemma ParseModelRoundTrip(m: string)
    requires ValidModelName(m)
    ensures ParseModel(ModelReply(m)) == Some(m)
  {
    var s := ModelReply(m);
    assert s[..|Tag|] == Tag;
    assert s[|Tag|..] == m + [FieldStop];
    TakeUntilPrefix(m, [FieldStop], FieldStop);
  }

  lemma {:induction false} TakeUntilPrefix(m: string, rest: string, stop: char)
    requires stop !in m && |rest| > 0 && rest[0] == stop
    ensures TakeUntil(m + rest, stop) == m
    decreases |m|
  {
    if |m| == 0 {
      assert m + rest == rest;
    } else {
      assert (m + rest)[1..] == m[1..] + rest;
      TakeUntilPrefix(m[1..], rest, stop);
    }
  }

  /** `stepsPerDegree` for a model name: "Mini" is tested first, then "Lite" with
      or without "V2"; any other name keeps the previous value. */
  function StepsPerDegreeFor(model: string, previous: int): (steps: int)
    ensures steps == previous || steps == 1142 || steps == 1155 || steps == 1199
  {
    if Contains(model, "Mini") then 1142
    else if Contains(model, "Lite") then (if Contains(model, "V2") then 1199 else 1155)
    else previous
  }

  /** A string cannot contain a pattern whose first character it lacks. */
  lemma {:induction false} MissingFirstChar(s: string, t: string)
    requires |t| > 0 && t[0] !in s
    ensures !Contains(s, t)
    decreases |s|
  {
    if |s| > 0 {
      assert s[0] != t[0];
      assert t[0] !in s[1..];
      MissingFirstChar(s[1..], t);
    }
  }

  /** The step table on the model names the instruments report. */
  lemma StepsForKnownModels(previous: int)
    ensures StepsPerDegreeFor("Mini", previous) == 1142
    ensures StepsPerDegreeFor("Lite", previous) == 1155
    ensures StepsPerDegreeFor("Lite V2", previous) == 1199
    ensures StepsPerDegreeFor("Pro", previous) == previous
  {
    assert StartsWith("Mini", "Mini");
    assert StartsWith("Lite", "Lite");
    assert StartsWith("Lite V2", "Lite");
    assert StartsWith("Lite V2"[5..], "V2");
    assert Contains("Lite V2", "V2") by {
      assert Contains("Lite V2"[5..], "V2");
      assert Contains("Lite V2"[4..], "V2");
      assert Contains("Lite V2"[3..], "V2");
      assert Contains("Lite V2"[2..], "V2");
      assert Contains("Lite V2"[1..], "V2");
    }
    MissingFirstChar("Lite", "V2");
    MissingFirstChar("Lite", "Mini");
    MissingFirstChar("Lite V2", "Mini");
    MissingFirstChar("Pro", "Mini");
    MissingFirstChar("Pro", "Lite");
  }

  /** The value of one reply field: nothing when the read timed out with no bytes,
      otherwise what the conversion makes of the text in the buffer. */
  function ModelField(bytes: seq<char>): Option<string>
  {
    if |bytes| == 0 then None else ParseModel(CStr(bytes))
  }

  function IntField(bytes: seq<char>): Option<int>
  {
    if |bytes| == 0 then None else ScanInt(CStr(bytes))
  }

  function FloatField(bytes: seq<char>): Option<Decimal>
  {
    if |bytes| == 0 then None else ScanFloat(CStr(bytes))
  }

  /** The five fields of a status reply, decoded. */
  datatype StatusFields = StatusFields(model: string, firmware: int, mechanicalAngle: int, backlash: Decimal, reverse: int)

  /** The five replies that follow a probe, read in order; `None` when any of them
      timed out or does not parse. */
  function DecodeStatus(l: Link): Option<StatusFields>
  {
    var model := ModelField(ReplyAt(l, 0));
    var firmware := IntField(ReplyAt(l, 1));
    var angle := IntField(ReplyAt(l, 2));
    var backlash := FloatField(ReplyAt(l, 3));
    var reverse := IntField(ReplyAt(l, 4));
    if model.Some? && firmware.Some? && angle.Some? && backlash.Some? && reverse.Some? then
      Some(StatusFields(model.value, firmware.value, angle.value, backlash.value, reverse.value))
    else None
  }

  lemma DecodeFromFields(l: Link, model: string, firmware: int, angle: int, backlash: Decimal, reverse: int)
    requires ModelField(ReplyAt(l, 0)) == Some(model)
    requires IntField(ReplyAt(l, 1)) == Some(firmware)
    requires IntField(ReplyAt(l, 2)) == Some(angle)
    requires FloatField(ReplyAt(l, 3)) == Some(backlash)
    requires IntField(ReplyAt(l, 4)) == Some(reverse)
    ensures DecodeStatus(l) == Some(StatusFields(model, firmware, angle, backlash, reverse))
  {
  }

  /** The five replies an instrument sends for a status request, backlash in tenths. */
  function StatusReplies(model: string, firmware: int, angle: int, backlashTenths: nat, reverse: int): seq<seq<char>>
  {
    [ModelReply(model),
     IntToString(firmware) + [FieldStop],
     IntToString(angle) + [FieldStop],
     TenthsToString(backlashTenths) + [FieldStop],
     IntToString(reverse) + [FieldStop]]
  }

  lemma CStrOfText(s: seq<char>)
    requires NUL !in s
    ensures CStr(s) == s
  {
    if |s| > 0 {
      assert NUL !in s[1..];
      CStrOfText(s[1..]);
      assert s == [s[0]] + s[1..];
    }
  }

  lemma NoNulInDigits(s: string)
    requires AllDigits(s)
    ensures NUL !in s
  {
    forall i | 0 <= i < |s| ensures s[i] != NUL {
      assert IsDigit(s[i]);
    }
  }

  lemma IntFieldRoundTrip(n: int)
    ensures IntField(IntToString(n) + [FieldStop]) == Some(n)
  {
    var s := IntToString(n) + [FieldStop];
    NoNulInDigits(NatToDigits(if n < 0 then -n else n));
    assert NUL !in s;
    CStrOfText(s);
    ScanIntRoundTrip(n, [FieldStop]);
  }

  lemma ModelFieldRoundTrip(m: string)
    requires ValidModelName(m)
    ensures ModelField(ModelReply(m)) == Some(m)
  {
    assert NUL !in ModelReply(m) by {
      assert NUL !in Tag;
    }
    CStrOfText(ModelReply(m));
    ParseModelRoundTrip(m);
  }

  lemma FloatFieldTenths(t: nat)
    ensures FloatField(TenthsToString(t) + [FieldStop]) == Some(Decimal(false, t / 10, [DigitChar(t % 10)]))
    ensures DecimalValue(FloatField(TenthsToString(t) + [FieldStop]).value) == t as real / 10.0
  {
    var b := TenthsToString(t) + [FieldStop];
    NoNulInDigits(NatToDigits(t / 10));
    assert b == NatToDigits(t / 10) + ['.', DigitChar(t % 10), FieldStop];
    assert NUL !in b;
    CStrOfText(b);
    ScanFloatTenths(t, [FieldStop]);
  }

  /** Decoding the five replies gives back the fields the instrument encoded. */
  lemma DecodeStatusRoundTrip(l: Link, model: string, firmware: int, angle: int, backlashTenths: nat, reverse: int)
    requires ValidModelName(model)
    requires |l.replies| >= 5 && l.replies[..5] == StatusReplies(model, firmware, angle, backlashTenths, reverse)
    ensures DecodeStatus(l).Some?
    ensures var f := DecodeStatus(l).value;
      && f.model == model && f.firmware == firmware && f.mechanicalAngle == angle
      && DecimalValue(f.backlash) == backlashTenths as real / 10.0 && f.reverse == reverse
      && TenthsOf(DecimalValue(f.backlash)) == backlashTenths
  {
    var rs := StatusReplies(model, firmware, angle, backlashTenths, reverse);
    assert ReplyAt(l, 0) == rs[0] && ReplyAt(l, 1) == rs[1] && ReplyAt(l, 2) == rs[2];
    assert ReplyAt(l, 3) == rs[3] && ReplyAt(l, 4) == rs[4];
    ModelFieldRoundTrip(model);
    IntFieldRoundTrip(firmware);
    IntFieldRoundTrip(angle);
    FloatFieldTenths(backlashTenths);
    IntFieldRoundTrip(reverse);
    TenthsOfTenths(backlashTenths);
  }

  /** A whole number of tenths survives the trip through degrees. */
  lemma TenthsOfTenths(t: int)
    ensures TenthsOf(t as real / 10.0) == t
  {
    assert t as real / 10.0 * 10.0 == t as real;
  }

  datatype Field<T> = Field(value: Option<T>, link: Link)

  function ReadModel(p: SerialPort, l: Link): Field<string>
  {
    var rd := Receive(p, l);
    Field(ModelField(rd.bytes), rd.link)
  }

  function ReadInt(p: SerialPort, l: Link): Field<int>
  {
    var rd := Receive(p, l);
    Field(IntField(rd.bytes), rd.link)
  }

  function ReadFloat(p: SerialPort, l: Link): Field<Decimal>
  {
    var rd := Receive(p, l);
    Field(FloatField(rd.bytes), rd.link)
  }

  /** The five stored fields and the derived status after a successful query. */
  predicate StatusApplied(d: Device, d': Device, f: StatusFields)
  {
    var steps := StepsPerDegreeFor(f.model, d.stepsPerDegree);
    && d'.modelType == f.model && d'.firmwareVersion == f.firmware
    && d'.mechanicalAngle == f.mechanicalAngle && d'.backlash == TenthsOf(DecimalValue(f.backlash))
    && d'.reverseDirection == f.reverse && d'.stepsPerDegree == steps
    && d'.status.stepsPerRevolution == steps * 360
    && d'.status.position == f.mechanicalAngle as real / 1000.0
    && d'.status.moving == d.status.moving
  }

  /** `d'` differs from `d` at most in its line and in what a status query stores. */
  predicate OnlyStatusChanged(d: Device, d': Device)
  {
    d'.(link := d.link, modelType := d.modelType, firmwareVersion := d.firmwareVersion,
        mechanicalAngle := d.mechanicalAngle, backlash := d.backlash,
        reverseDirection := d.reverseDirection, stepsPerDegree := d.stepsPerDegree,
        status := d.status) == d
  }

  /** The derived part of a successful query: steps per degree from the model
      name, revolution size and position from those. */
  function Derive(d: Device): (d': Device)
    ensures d'.stepsPerDegree == StepsPerDegreeFor(d.modelType, d.stepsPerDegree)
    ensures d'.status.stepsPerRevolution == 360 * d'.stepsPerDegree
    ensures d'.status.position == d.mechanicalAngle as real / 1000.0
    ensures d' == d.(stepsPerDegree := d'.stepsPerDegree, status := d.status.(stepsPerRevolution := d'.status.stepsPerRevolution, position := d'.status.position))
  {
    var steps := StepsPerDegreeFor(d.modelType, d.stepsPerDegree);
    d.(stepsPerDegree := steps,
       status := d.status.(stepsPerRevolution := steps * 360, position := d.mechanicalAngle as real / 1000.0))
  }

  /** The last two fields of a status reply, the backlash and the direction flag,
      read from the replies of `l`; on success the derived values follow. */
  function ReadSettings(d: Device, p: SerialPort, l: Link): (r: Sent)
    requires IsOpen(p)
    ensures r.ok <==> FloatField(ReplyAt(l, 0)).Some? && IntField(ReplyAt(l, 1)).Some?
    ensures r.ok ==> r.device == Derive(d.(backlash := TenthsOf(DecimalValue(FloatField(ReplyAt(l, 0)).value)),
                                           reverseDirection := IntField(ReplyAt(l, 1)).value,
                                           link := r.device.link))
    ensures !r.ok ==> r.device.stepsPerDegree == d.stepsPerDegree && r.device.status == d.status
    ensures FloatField(ReplyAt(l, 0)).Some? ==> r.device.backlash == TenthsOf(DecimalValue(FloatField(ReplyAt(l, 0)).value))
    ensures r.device.link.sent == l.sent
    ensures OnlyStatusChanged(d, r.device)
    ensures r.device.modelType == d.modelType && r.device.firmwareVersion == d.firmwareVersion
    ensures r.device.mechanicalAngle == d.mechanicalAngle
  {
    var f3 := ReadFloat(p, l);
    match f3.value
    case None => Sent(false, d.(link := f3.link))
    case Some(backlash) =>
      var f4 := ReadInt(p, f3.link);
      assert ReplyAt(f3.link, 0) == ReplyAt(l, 1);
      match f4.value
      case None => Sent(false, d.(link := f4.link, backlash := TenthsOf(DecimalValue(backlash))))
      case Some(reverse) =>
        Sent(true, Derive(d.(link := f4.link, backlash := TenthsOf(DecimalValue(backlash)), reverseDirection := reverse)))
  }

  /** The firmware version and the mechanical angle, then the settings. */
  function ReadNumbers(d: Device, p: SerialPort, l: Link): (r: Sent)
    requires IsOpen(p)
    ensures r.ok <==> IntField(ReplyAt(l, 0)).Some? && IntField(ReplyAt(l, 1)).Some?
                      && FloatField(ReplyAt(l, 2)).Some? && IntField(ReplyAt(l, 3)).Some?
    ensures r.ok ==> r.device == Derive(d.(firmwareVersion := IntField(ReplyAt(l, 0)).value,
                                           mechanicalAngle := IntField(ReplyAt(l, 1)).value,
                                           backlash := TenthsOf(DecimalValue(FloatField(ReplyAt(l, 2)).value)),
                                           reverseDirection := IntField(ReplyAt(l, 3)).value,
                                           link := r.device.link))
    ensures !r.ok ==> r.device.stepsPerDegree == d.stepsPerDegree && r.device.status == d.status
    ensures r.device.link.sent == l.sent
    ensures OnlyStatusChanged(d, r.device)
    ensures r.device.modelType == d.modelType
  {
    var f1 := ReadInt(p, l);
    match f1.value
    case None => Sent(false, d.(link := f1.link))
    case Some(firmware) =>
      var f2 := ReadInt(p, f1.link);
      assert ReplyAt(f1.link, 0) == ReplyAt(l, 1);
      match f2.value
      case None => Sent(false, d.(link := f2.link, firmwareVersion := firmware))
      case Some(angle) =>
        assert ReplyAt(f2.link, 0) == ReplyAt(l, 2) && ReplyAt(f2.link, 1) == ReplyAt(l, 3);
        ReadSettings(d.(link := f2.link, firmwareVersion := firmware, mechanicalAngle := angle), p, f2.link)
  }

  /** The reading half of `QueryStatus`, once the probe is out: the model name,
      then the numeric fields. */
  function ReadStatus(d: Device, p: SerialPort, l: Link): (r: Sent)
    requires IsOpen(p)
    ensures r.ok <==> DecodeStatus(l).Some?
    ensures r.ok ==> StatusApplied(d, r.device, DecodeStatus(l).value)
    ensures !r.ok ==> r.device.stepsPerDegree == d.stepsPerDegree && r.device.status == d.status
    ensures r.device.link.sent == l.sent
    ensures OnlyStatusChanged(d, r.device)
  {
    var f0 := ReadModel(p, l);
    match f0.value
    case None => Sent(false, d.(link := f0.link))
    case Some(model) =>
      var l' := f0.link;
      assert forall j: nat :: ReplyAt(l', j) == ReplyAt(l, j + 1);
      assert ReplyAt(l', 0) == ReplyAt(l, 1) && ReplyAt(l', 1) == ReplyAt(l, 2);
      assert ReplyAt(l', 2) == ReplyAt(l, 3) && ReplyAt(l', 3) == ReplyAt(l, 4);
      ReadNumbers(d.(link := l', modelType := model), p, l')
  }

  /** `QueryStatus`: writes the probe and reads the five fields, storing each as
      soon as it parses; the first timeout or unparsable field ends the query
      with failure, before the steps per degree or the status are touched. On
      success the backlash is kept in tenths of a degree, the steps per degree
      follow the model name, and the position is the mechanical angle, reported
      in thousandths of a degree, in degrees. */
  function QueryStatus(d: Device): (r: Sent)
    ensures !PortReady(d) ==> !r.ok && r.device == d
    ensures PortReady(d) ==> r.device.link.sent == d.link.sent + [Probe]
    ensures r.ok <==> PortReady(d) && ProbeWritten(d.link, 0) && DecodeStatus(d.link).Some?
    ensures r.ok ==> StatusApplied(d, r.device, DecodeStatus(d.link).value)
    ensures !r.ok ==> r.device.stepsPerDegree == d.stepsPerDegree && r.device.status == d.status
    ensures OnlyStatusChanged(d, r.device)
  {
    if d.port.None? || !IsOpen(d.port.value) then Sent(false, d)
    else
      var w := Write(d.port.value, d.link, Probe);
      if !w.ok then Sent(false, d.(link := w.link))
      else
        assert DecodeStatus(w.link) == DecodeStatus(d.link) by {
          assert forall j: nat :: ReplyAt(w.link, j) == ReplyAt(d.link, j);
        }
        ReadStatus(d, d.port.value, w.link)
  }

  /** A status query on an instrument that answers the probe with the five
      fields stores exactly what it sent, the backlash to the tenth. */
  lemma QueryStatusRoundTrip(d: Device, model: string, firmware: int, angle: int, backlashTenths: nat, reverse: int)
    requires PortReady(d) && ProbeWritten(d.link, 0)
    requires ValidModelName(model)
    requires |d.link.replies| >= 5 && d.link.replies[..5] == StatusReplies(model, firmware, angle, backlashTenths, reverse)
    ensures QueryStatus(d).ok
    ensures var e := QueryStatus(d).device;
      && e.modelType == model && e.firmwareVersion == firmware && e.mechanicalAngle == angle
      && e.backlash == backlashTenths && e.reverseDirection == reverse
      && e.stepsPerDegree == StepsPerDegreeFor(model, d.stepsPerDegree)
      && e.status.position == angle as real / 1000.0
  {
    DecodeStatusRoundTrip(d.link, model, firmware, angle, backlashTenths, reverse);
  }

  /** A status query keeps the device well formed. */
  lemma QueryStatusWellFormed(d: Device)
    requires WellFormed(d)
    ensures WellFormed(QueryStatus(d).device)
  {
  }

  // ---------------------------------------------------------------------------
  // The move listener

  /** `StartMoveListener`: the flag is cleared and set again for the new listener. */
  function StartMoveListener(d: Device): (e: Device)
    ensures e.listenerRunning
    ensures e.(listenerRunning := d.listenerRunning) == d
  {
    d.(listenerRunning := true)
  }

  /** `StopMoveListener`: only the flag is cleared; a listener already waiting is not interrupted. */
  function StopMoveListener(d: Device): (e: Device)
    ensures !e.listenerRunning
    ensures e.(listenerRunning := d.listenerRunning) == d
  {
    d.(listenerRunning := false)
  }

  /** The way back after an overshoot: against the direction of the last move. */
  function ReturnAngle(d: Device): (a: real)
    ensures a == d.overshootAngle || a == -d.overshootAngle
    ensures d.overshootAngle >= 0.0 && d.targetAngle > 0.0 ==> a <= 0.0
    ensures d.overshootAngle >= 0.0 && d.targetAngle <= 0.0 ==> a >= 0.0
  {
    if d.targetAngle > 0.0 then -d.overshootAngle else d.overshootAngle
  }

  /** The return move, formatted with `%d` into a 16-byte buffer, which every
      `int` fits. */
  function ReturnCommand(d: Device): string
  {
    IntToString(MoveValue(ReturnAngle(d), d.stepsPerDegree))
  }

  /** What the listener leaves behind: the device, and whether it started a
      new listener for the return half of an overshoot. */
  datatype Heard = Heard(device: Device, restarted: bool)

  /** Both frames of a finished move arrive and parse: the angle rotated, then
      the new mechanical angle. */
  predicate MoveReported(l: Link)
  {
    FloatField(ReplyAt(l, 0)).Some? && IntField(ReplyAt(l, 1)).Some?
  }

  /** One run of `MoveListenerThreadFunc`. */
  function ListenerStep(d: Device): (r: Heard)
    ensures d.port.None? ==> r == Heard(d, false)
    ensures d.port.Some? && !r.restarted ==> !r.device.listenerRunning
    ensures r.restarted ==> r.device.listenerRunning
    ensures r.device.stepsPerDegree == d.stepsPerDegree && r.device.modelType == d.modelType
    ensures r.device.status.stepsPerRevolution == d.status.stepsPerRevolution
    ensures r.device.targetAngle == d.targetAngle && r.device.overshootAngle == d.overshootAngle
    ensures !(PortReady(d) && MoveReported(d.link)) ==>
      && !r.restarted
      && r.device.status == d.status && r.device.overshooting == d.overshooting
      && r.device.mechanicalAngle == d.mechanicalAngle
    ensures PortReady(d) && MoveReported(d.link) ==>
      && r.device.lastRotated == DecimalValue(FloatField(ReplyAt(d.link, 0)).value)
      && r.device.mechanicalAngle == IntField(ReplyAt(d.link, 1)).value
      && r.device.status.position == r.device.mechanicalAngle as real / 1000.0
    ensures PortReady(d) && MoveReported(d.link) && d.overshooting == 1 ==>
      && r.device.link.sent == d.link.sent + [ReturnCommand(d)]
      && (r.restarted <==> WriteCountAt(d.link, 0) == |ReturnCommand(d)|)
      && (r.restarted ==> r.device.overshooting == 2 && r.device.status.moving == 1)
      && (!r.restarted ==> r.device.overshooting == 0 && r.device.status.moving == 0)
    ensures PortReady(d) && MoveReported(d.link) && d.overshooting != 1 ==>
      && !r.restarted && r.device.status.moving == 0 && r.device.link.sent == d.link.sent
      && r.device.overshooting == (if d.overshooting == 2 then 0 else d.overshooting)
  {
    if d.port.None? then Heard(d, false)
    else if !IsOpen(d.port.value) then Heard(d.(listenerRunning := false), false)
    else
      var p := d.port.value;
      var a := ReadFloat(p, d.link);
      match a.value
      case None => Heard(d.(link := a.link, listenerRunning := false), false)
      case Some(rotated) =>
        var b := ReadInt(p, a.link);
        assert ReplyAt(a.link, 0) == ReplyAt(d.link, 1);
        match b.value
        case None => Heard(d.(link := b.link, lastRotated := DecimalValue(rotated), listenerRunning := false), false)
        case Some(angle) =>
          var d2 := d.(link := b.link, lastRotated := DecimalValue(rotated), mechanicalAngle := angle,
                       status := d.status.(position := angle as real / 1000.0));
          assert d2.link.sent == d.link.sent && WriteCountAt(d2.link, 0) == WriteCountAt(d.link, 0);
          if d2.overshooting == 1 then
            var s := SendCommand(d2.(overshooting := 2), ReturnCommand(d));
            if s.ok then
              Heard(StartMoveListener(s.device.(status := s.device.status.(moving := 1))), true)
            else
              Heard(s.device.(overshooting := 0, status := s.device.status.(moving := 0), listenerRunning := false), false)
          else if d2.overshooting == 2 then
            Heard(d2.(overshooting := 0, status := d2.status.(moving := 0), listenerRunning := false), false)
          else
            Heard(d2.(status := d2.status.(moving := 0), listenerRunning := false), false)
  }

  /** The listener and the listeners it starts, run to the end: a restart only
      follows phase 1 and leaves phase 2 behind, so there is at most one. */
  function RunListener(d: Device): (r: Device)
    ensures d.port.Some? ==> !r.listenerRunning
    decreases if d.overshooting == 1 then 1 else 0
  {
    var h := ListenerStep(d);
    if h.restarted then RunListener(h.device) else h.device
  }

  /** A timeout or a malformed frame ends the listener and nothing else: the
      move stays marked as running and the overshoot phase is kept. */
  lemma ListenerFailureKeepsMotion(d: Device)
    requires PortReady(d) && !MoveReported(d.link)
    ensures var r := ListenerStep(d);
      !r.restarted && !r.device.listenerRunning
      && r.device.status.moving == d.status.moving && r.device.overshooting == d.overshooting
  {
  }

  /** One listener run keeps the device well formed. */
  lemma ListenerStepWellFormed(d: Device)
    requires WellFormed(d)
    ensures WellFormed(ListenerStep(d).device)
  {
    var r := ListenerStep(d);
    assert r.device.status.moving == 0 || r.device.status.moving == 1 || r.device.status == d.status;
    assert r.device.overshooting == d.overshooting || r.device.overshooting == 0 || r.device.overshooting == 2;
  }

  /** So do the listeners it starts. */
  lemma {:induction false} RunListenerWellFormed(d: Device)
    requires WellFormed(d)
    ensures WellFormed(RunListener(d))
    decreases if d.overshooting == 1 then 1 else 0
  {
    ListenerStepWellFormed(d);
    if ListenerStep(d).restarted {
      RunListenerWellFormed(ListenerStep(d).device);
    }
  }

  /** An overshoot settles in two listener runs: the outbound move reports, the
      return move goes out, then the return move reports and motion ends with
      the phase back at 0. */
  lemma OvershootSettles(d: Device)
    requires PortReady(d) && d.overshooting == 1
    requires MoveReported(d.link) && WriteCountAt(d.link, 0) == |ReturnCommand(d)|
    requires MoveReported(ListenerStep(d).device.link)
    ensures ListenerStep(d).restarted
    ensures var e := RunListener(d);
      && e.overshooting == 0 && e.status.moving == 0 && !e.listenerRunning
      && e.link.sent == d.link.sent + [ReturnCommand(d)]
  {
    var h := ListenerStep(d);
    assert PortReady(h.device) && h.device.overshooting == 2;
  }
}
