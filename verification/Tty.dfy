/** The console line discipline in canonical mode. */
module Tty {
  import opened Bytes

  const PEND_MAX := 512
  const LINE_MAX := 256
  const NL: Byte := 10
  const CR: Byte := 13
  const BS: Byte := 8
  const SUSP: Byte := 0x1A

  /** The settings that bear on canonical input: the special characters and the
      flags ISIG, ICRNL and IXON. */
  datatype Settings = Settings(intr: Byte, quit: Byte, erase: Byte, kill: Byte, eof: Byte, stop: Byte, start: Byte,
                               isig: bool, icrnl: bool, ixon: bool)

  /** A null interrupt character means that none was ever set. */
  function WithDefaults(c: Settings): (r: Settings) {
    if c.intr != 0 then c
    else c.(intr := 3, quit := 0x1C, erase := 0x7F, kill := 0x15, eof := 4, stop := 0x13, start := 0x11)
  }

  // ---- the editing function --------------------------------------------------------------------

  /** The line being edited, everything completed so far, and how many times
      the end-of-file character was typed on an empty line. */
  datatype Edit = Edit(line: seq<Byte>, out: seq<Byte>, eofs: nat)

  /** What a byte means, in the order the settings are consulted. */
  datatype Key = Discard | Erase | Kill | Eof | Newline | Ignore | Plain(b: Byte)

  function Meaning(c: Settings, b: Byte): (k: Key) {
    if c.isig && (b == c.intr || b == c.quit || b == SUSP) then Discard
    else if b == c.erase || b == BS then Erase
    else if b == c.kill then Kill
    else if b == c.eof then Eof
    else if b == NL || (b == CR && c.icrnl) then Newline
    else if c.ixon && (b == c.stop || b == c.start) then Ignore
    else Plain(b)
  }

  function Edited(e: Edit, k: Key): (r: Edit) {
    match k
    case Discard => e.(line := [])
    case Erase => if e.line == [] then e else e.(line := e.line[..|e.line| - 1])
    case Kill => e.(line := [])
    case Eof => if e.line == [] then e.(eofs := e.eofs + 1) else Edit([], e.out + e.line, e.eofs)
    case Newline => Edit([], e.out + e.line + [NL], e.eofs)
    case Ignore => e
    case Plain(b) => if |e.line| < LINE_MAX then e.(line := e.line + [b]) else e
  }

  /** The whole input, byte by byte. */
  function Typed(c: Settings, input: seq<Byte>): (e: Edit)
    ensures |e.line| <= LINE_MAX
  {
    if input == [] then Edit([], [], 0)
    else Edited(Typed(c, input[..|input| - 1]), Meaning(c, input[|input| - 1]))
  }

  // ---- laws of editing ---------------------------------------------------------------------------

  lemma TypedMore(c: Settings, input: seq<Byte>, b: Byte)
    ensures Typed(c, input + [b]) == Edited(Typed(c, input), Meaning(c, b))
  {
    assert (input + [b])[..|input|] == input;
  }

  /** What typing one more byte does, key by key and in the order in which the
      keys are looked for. */
  lemma SignalKeys(c: Settings, input: seq<Byte>, b: Byte)
    requires c.isig && (b == c.intr || b == c.quit || b == 26)
    ensures var e := Typed(c, input); Typed(c, input + [b]) == Edit([], e.out, e.eofs)
  {
    TypedMore(c, input, b);
  }

  /** The byte is not one that raises a signal. */
  predicate Quiet(c: Settings, b: Byte) { c.isig ==> b != c.intr && b != c.quit && b != 26 }

  lemma EraseKeys(c: Settings, input: seq<Byte>, b: Byte)
    requires Quiet(c, b) && (b == c.erase || b == 8)
    ensures var e, t := Typed(c, input), Typed(c, input + [b]);
            && t.out == e.out && t.eofs == e.eofs && t.line <= e.line
            && |t.line| == (if e.line == [] then 0 else |e.line| - 1)
  {
    TypedMore(c, input, b);
  }

  predicate NoEdit(c: Settings, b: Byte) { Quiet(c, b) && b != c.erase && b != 8 }

  lemma KillKey(c: Settings, input: seq<Byte>, b: Byte)
    requires NoEdit(c, b) && b == c.kill
    ensures var e := Typed(c, input); Typed(c, input + [b]) == Edit([], e.out, e.eofs)
  {
    TypedMore(c, input, b);
  }

  /** An end of file hands over what was typed of the line, or counts. */
  lemma EofKey(c: Settings, input: seq<Byte>, b: Byte)
    requires NoEdit(c, b) && b != c.kill && b == c.eof
    ensures var e := Typed(c, input);
            Typed(c, input + [b]) == Edit([], e.out + e.line, e.eofs + if e.line == [] then 1 else 0)
  {
    TypedMore(c, input, b);
    assert Typed(c, input).out + [] == Typed(c, input).out;
  }

  /** A newline ends the line, and so does a carriage return if it stands for one. */
  lemma NewlineKeys(c: Settings, input: seq<Byte>, b: Byte)
    requires NoEdit(c, b) && b != c.kill && b != c.eof && (b == 10 || (b == 13 && c.icrnl))
    ensures var e := Typed(c, input); Typed(c, input + [b]) == Edit([], e.out + e.line + [10], e.eofs)
  {
    TypedMore(c, input, b);
  }

  /** Any other byte is typed if the line has room, but for the two that stop and
      start output. */
  lemma OtherKeys(c: Settings, input: seq<Byte>, b: Byte)
    requires NoEdit(c, b) && b != c.kill && b != c.eof && b != 10 && !(b == 13 && c.icrnl)
    ensures var e := Typed(c, input);
            Typed(c, input + [b]) ==
              if (c.ixon && (b == c.stop || b == c.start)) || |e.line| == 256 then e
              else Edit(e.line + [b], e.out, e.eofs)
  {
    TypedMore(c, input, b);
  }

  /** Killing a line of plain characters undoes it, however long it is. */
  lemma {:induction false} KillUndoes(c: Settings, input: seq<Byte>, text: seq<Byte>, k: Byte)
    requires Typed(c, input).line == [] && NoEdit(c, k) && k == c.kill
    requires forall i | 0 <= i < |text| :: Meaning(c, text[i]).Plain?
    ensures Typed(c, input + text + [k]) == Typed(c, input)
  {
    hide Typed, Meaning;
    PlainOnlyTypes(c, input, text);
    KillKey(c, input + text, k);
  }

  lemma {:induction false} PlainOnlyTypes(c: Settings, input: seq<Byte>, text: seq<Byte>)
    requires forall i | 0 <= i < |text| :: Meaning(c, text[i]).Plain?
    ensures Typed(c, input + text).out == Typed(c, input).out && Typed(c, input + text).eofs == Typed(c, input).eofs
  {
    hide Typed, Meaning;
    if text == [] {
      assert input + text == input;
    } else {
      var last := |text| - 1;
      PlainOnlyTypes(c, input, text[..last]);
      assert input + text == input + text[..last] + [text[last]];
      TypedMore(c, input + text[..last], text[last]);
    }
  }

  /** The keys of a terminal nobody has set up. */
  lemma DefaultKeys(c: Settings)
    requires c.intr == 0 && c.isig && c.icrnl && c.ixon
    ensures var d := WithDefaults(c);
            && Meaning(d, 3).Discard? && Meaning(d, 0x1C).Discard? && Meaning(d, 0x1A).Discard?
            && Meaning(d, 0x7F).Erase? && Meaning(d, 8).Erase? && Meaning(d, 0x15).Kill? && Meaning(d, 4).Eof?
            && Meaning(d, 10).Newline? && Meaning(d, 13).Newline?
            && Meaning(d, 0x13).Ignore? && Meaning(d, 0x11).Ignore?
            && forall b: Byte | 32 <= b < 127 :: Meaning(d, b) == Plain(b)
  {
  }

  /** Erasing undoes a plain character, exactly while the line has room. */
  lemma EraseUndoes(c: Settings, input: seq<Byte>, b: Byte, e: Byte)
    requires Meaning(c, b).Plain? && Meaning(c, e).Erase?
    ensures Typed(c, input + [b] + [e]) == Typed(c, input) <==> |Typed(c, input).line| < LINE_MAX
  {
    TypedMore(c, input, b);
    TypedMore(c, input + [b], e);
    var t := Typed(c, input);
    assert |t.line| < LINE_MAX ==> (t.line + [b])[..|t.line|] == t.line;
  }

  /** A whole line of plain characters comes out as typed. */
  lemma {:induction false} PlainLine(c: Settings, input: seq<Byte>, text: seq<Byte>, nl: Byte)
    requires Typed(c, input).line == [] && |text| <= LINE_MAX && Meaning(c, nl).Newline?
    requires forall i | 0 <= i < |text| :: Meaning(c, text[i]) == Plain(text[i])
    ensures Typed(c, input + text).line == text && Typed(c, input + text).out == Typed(c, input).out
    ensures Typed(c, input + text + [nl]).out == Typed(c, input).out + text + [NL]
    decreases |text|
  {
    hide Typed, Meaning;
    TypedMore(c, input + text, nl);
    if text == [] {
      assert input + text == input;
    } else {
      var last := |text| - 1;
      PlainLine(c, input, text[..last], nl);
      assert input + text == input + text[..last] + [text[last]];
      TypedMore(c, input + text[..last], text[last]);
    }
  }

  /** What has come out is never taken back. */
  lemma {:induction false} OutGrows(c: Settings, input: seq<Byte>, n: nat)
    requires n <= |input|
    ensures Typed(c, input[..n]).out <= Typed(c, input).out && Typed(c, input[..n]).eofs <= Typed(c, input).eofs
    decreases |input|
  {
    if n < |input| {
      OutGrows(c, input[..|input| - 1], n);
      assert input[..|input| - 1][..n] == input[..n];
    } else {
      assert input[..n] == input;
    }
  }

  // ---- the terminal ------------------------------------------------------------------------------

  /** What a poll of the input finds. */
  datatype Poll = Got(b: Byte) | Nothing | Signalled

  /** How a read ends: with data, at end of file, interrupted, or still waiting
      when the polls of the script are used up. */
  datatype Outcome = Data(bytes: seq<Byte>) | EndOfFile | Interrupted | Waiting

  class Terminal {
    const settings: Settings
    const line: array<Byte>
    const pend: array<Byte>
    var lineLen: nat
    var pendLen: nat
    var eofOnce: bool
    ghost var fed: seq<Byte>
    ghost var delivered: seq<Byte>
    ghost var ends: nat

    /** Everything completed by what was typed was delivered or is pending. */
    ghost predicate Valid()
      reads this, line, pend
    {
      && line.Length == LINE_MAX && pend.Length == PEND_MAX && lineLen <= LINE_MAX && pendLen <= PEND_MAX
      && line != pend
      && Typed(settings, fed) == Edit(line[..lineLen], delivered + pend[..pendLen], ends + if eofOnce then 1 else 0)
    }

    constructor (c: Settings)
      ensures Valid() && fresh(line) && fresh(pend) && fed == [] && delivered == [] && ends == 0
              && settings == WithDefaults(c)
    {
      settings := WithDefaults(c);
      line := new Byte[LINE_MAX](_ => 0);
      pend := new Byte[PEND_MAX](_ => 0);
      lineLen, pendLen, eofOnce, fed, delivered, ends := 0, 0, false, [], [], 0;
    }

    method PushPend(b: Byte)
      requires pend.Length == PEND_MAX && pendLen <= PEND_MAX
      modifies this`pendLen, pend
      ensures pendLen <= PEND_MAX
      ensures pend[..pendLen] == if old(pendLen) < PEND_MAX then old(pend[..pendLen]) + [b] else old(pend[..pendLen])
    {
      if pendLen < PEND_MAX {
        pend[pendLen] := b;
        pendLen := pendLen + 1;
      }
    }

    method CompleteLine(newline: bool)
      requires line.Length == LINE_MAX && pend.Length == PEND_MAX && line != pend && lineLen <= LINE_MAX && pendLen == 0
      modifies this`lineLen, this`pendLen, pend
      ensures lineLen == 0 && pendLen <= PEND_MAX
      ensures pend[..pendLen] == old(line[..lineLen]) + if newline then [NL] else []
    {
      var i := 0;
      while i < lineLen
        invariant 0 <= i <= lineLen == old(lineLen) && pendLen == i && pend[..pendLen] == line[..i]
      {
        PushPend(line[i]);
        i := i + 1;
      }
      if newline { PushPend(NL); }
      lineLen := 0;
    }

    /** The line, what is pending, and the end-of-file mark. */
    ghost function Now(): (v: Buffers)
      requires lineLen <= line.Length && pendLen <= pend.Length
      reads this, line, pend
    {
      Buffers(line[..lineLen], pend[..pendLen], eofOnce)
    }

    ghost predicate Shaped()
      reads this
    {
      line.Length == LINE_MAX && pend.Length == PEND_MAX && lineLen <= LINE_MAX && pendLen <= PEND_MAX && line != pend
    }

    method EraseOne()
      requires Shaped() && pendLen == 0 && !eofOnce
      modifies this`lineLen
      ensures Shaped() && Now() == Handled(old(Now()), Erase)
    {
      if lineLen > 0 { lineLen := lineLen - 1; }
    }

    method KillLine()
      requires Shaped() && pendLen == 0 && !eofOnce
      modifies this`lineLen
      ensures Shaped() && Now() == Handled(old(Now()), Kill)
    {
      while lineLen > 0
        invariant lineLen <= LINE_MAX
      {
        lineLen := lineLen - 1;
      }
    }

    method EndInput()
      requires Shaped() && pendLen == 0 && !eofOnce
      modifies this`lineLen, this`pendLen, this`eofOnce, pend
      ensures Shaped() && Now() == Handled(old(Now()), Eof)
    {
      if lineLen > 0 { CompleteLine(false); } else { eofOnce := true; }
    }

    method Insert(b: Byte)
      requires Shaped() && pendLen == 0 && !eofOnce
      modifies this`lineLen, line
      ensures Shaped() && Now() == Handled(old(Now()), Plain(b))
    {
      if lineLen < LINE_MAX {
        line[lineLen] := b;
        lineLen := lineLen + 1;
      }
    }

    /** One raw byte, as the settings say. */
    method Handle(raw: Byte)
      requires Shaped() && pendLen == 0 && !eofOnce
      modifies this`lineLen, this`pendLen, this`eofOnce, line, pend
      ensures Shaped() && Now() == Handled(old(Now()), Meaning(settings, raw))
    {
      var b := raw;
      if settings.isig && b == settings.intr { lineLen, pendLen := 0, 0; return; }
      if settings.isig && b == settings.quit { lineLen, pendLen := 0, 0; return; }
      if settings.isig && b == SUSP { lineLen := 0; return; }
      if b == settings.erase || b == BS { EraseOne(); return; }
      if b == settings.kill { KillLine(); return; }
      if b == settings.eof { EndInput(); return; }
      if b == CR && settings.icrnl { b := NL; }
      if b == NL { CompleteLine(true); return; }
      if settings.ixon && (b == settings.stop || b == settings.start) { return; }
      Insert(b);
    }

    /** The read loop feeds a byte only when nothing is pending, so nothing is
        ever dropped. */
    method Feed(raw: Byte)
      requires Valid() && pendLen == 0 && !eofOnce
      modifies this`lineLen, this`pendLen, this`eofOnce, this`fed, line, pend
      ensures Valid() && fed == old(fed) + [raw]
    {
      hide Typed, Meaning;
      HandledIsEdited(settings, fed, Now(), delivered, ends, raw);
      Handle(raw);
      fed := fed + [raw];
    }

    /** Take up to `n` pending bytes and move the rest to the front. */
    method Drain(n: nat) returns (bytes: seq<Byte>)
      requires Valid() && 0 < pendLen && 0 < n
      modifies this`pendLen, this`delivered, pend
      ensures Valid() && delivered == old(delivered) + bytes
      ensures |bytes| == (if old(pendLen) < n then old(pendLen) else n) && pendLen == old(pendLen) - |bytes|
    {
      hide Typed;
      var take := if pendLen < n then pendLen else n;
      bytes := pend[..take];
      var rest := pendLen - take;
      ghost var was := pend[..];
      var i := 0;
      while i < rest
        invariant 0 <= i <= rest && pendLen == old(pendLen) && delivered == old(delivered)
        invariant forall k | 0 <= k < i :: pend[k] == was[take + k]
        invariant forall k | i <= k < PEND_MAX :: pend[k] == was[k]
      {
        pend[i] := pend[take + i];
        i := i + 1;
      }
      assert pend[..rest] == was[take..pendLen];
      Regroup(old(delivered), was, take, pendLen);
      delivered := delivered + bytes;
      pendLen := rest;
    }

    /** Nothing that was typed is left to return. */
    ghost predicate Drained(input: seq<Byte>, out: seq<Byte>, eofs: nat) {
      Typed(settings, input).out == out && Typed(settings, input).eofs == eofs
    }

    lemma IsDrained()
      requires Valid() && pendLen == 0 && !eofOnce
      ensures Drained(fed, delivered, ends)
    {
      hide Typed;
      assert pend[..pendLen] == [] && delivered + [] == delivered;
    }

    lemma AllDelivered()
      requires Valid() && pendLen == 0
      ensures Typed(settings, fed).out == delivered
    {
      hide Typed;
      assert pend[..pendLen] == [] && delivered + [] == delivered;
    }

    /** One read of up to `n` bytes. The polls of `script` are used in order,
        and only while there is nothing to return and no signal. The answer is
        short only if there is no more, and the read waits only if there is
        nothing. */
    method Read(n: nat, script: seq<Poll>) returns (r: Outcome, used: nat)
      requires Valid()
      modifies this, line, pend
      ensures Valid() && used <= |script| && fed == old(fed) + Polled(script[..used])
      ensures delivered == old(delivered) + if r.Data? then r.bytes else []
      ensures ends == old(ends) + if r.EndOfFile? then 1 else 0
      ensures r.Data? ==> |r.bytes| <= n && (n > 0 ==> 0 < |r.bytes|)
      ensures r.Data? && |r.bytes| < n ==> Typed(settings, fed).out == delivered
      ensures r.Waiting? || r.Interrupted? ==> Drained(fed, old(delivered), old(ends))
      ensures used > 0 ==> Drained(old(fed) + Polled(script[..used - 1]), old(delivered), old(ends))
      ensures (r.Waiting? ==> used == |script|) && (n == 0 ==> r == Data([]) && used == 0)
      ensures forall i | 0 <= i < used - 1 :: !script[i].Signalled?
      ensures r.Interrupted? <==> used > 0 && script[used - 1].Signalled?
    {
      hide Typed, Polled, Drained;
      NoPolls(script);
      used := 0;
      if n == 0 { return Data([]), 0; }
      while true
        invariant Valid() && used <= |script| && fed == old(fed) + Polled(script[..used])
        invariant delivered == old(delivered) && ends == old(ends)
        invariant used > 0 ==> Drained(old(fed) + Polled(script[..used - 1]), old(delivered), old(ends))
        invariant forall i | 0 <= i < used :: !script[i].Signalled?
        decreases |script| - used
      {
        if pendLen > 0 {
          var bytes := Drain(n);
          if pendLen == 0 { AllDelivered(); }
          return Data(bytes), used;
        }
        if eofOnce {
          eofOnce, ends := false, ends + 1;
          return EndOfFile, used;
        }
        IsDrained();
        if used == |script| { return Waiting, used; }
        PolledMore(script, used);
        used := used + 1;
        match script[used - 1]
        case Got(b) => Feed(b);
        case Signalled => return Interrupted, used;
        case Nothing =>
      }
    }
  }

  datatype Buffers = Buffers(line: seq<Byte>, pend: seq<Byte>, eof: bool)

  /** A key pressed while nothing is pending. */
  function Handled(v: Buffers, k: Key): (r: Buffers) {
    var e := Edited(Edit(v.line, [], 0), k);
    Buffers(e.line, e.out, e.eofs > 0)
  }

  lemma HandledIsEdited(c: Settings, fed: seq<Byte>, v: Buffers, delivered: seq<Byte>, ends: nat, b: Byte)
    requires v.pend == [] && !v.eof && Typed(c, fed) == Edit(v.line, delivered, ends)
    ensures var r := Handled(v, Meaning(c, b));
            Typed(c, fed + [b]) == Edit(r.line, delivered + r.pend, ends + if r.eof then 1 else 0)
  {
    hide Typed, Meaning;
    TypedMore(c, fed, b);
  }

  /** The bytes among the polls. */
  function Polled(script: seq<Poll>): (r: seq<Byte>) {
    if script == [] then []
    else Polled(script[..|script| - 1]) + if script[|script| - 1].Got? then [script[|script| - 1].b] else []
  }

  lemma Regroup(front: seq<Byte>, was: seq<Byte>, take: nat, n: nat)
    requires take <= n <= |was|
    ensures front + was[..n] == front + was[..take] + was[take..n]
  {
  }

  lemma NoPolls(script: seq<Poll>)
    ensures Polled(script[..0]) == []
  {
  }

  lemma PolledMore(script: seq<Poll>, i: nat)
    requires i < |script|
    ensures Polled(script[..i + 1]) == Polled(script[..i]) + if script[i].Got? then [script[i].b] else []
  {
    assert script[..i + 1][..i] == script[..i];
  }
}
