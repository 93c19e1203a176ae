/**
 The check a signed PSBT has to pass before a signing session returns it, and what the
 check means over a chain of sessions, each starting from the PSBT the last one returned.
 */
module PsbtGate {
  import opened Bytes

  /** An ECDSA signature: its DER bytes and the sighash mode behind them. */
  datatype EcdsaSig = EcdsaSig(der: bytes, mode: u8)

  /** A Schnorr signature; mode 0, the taproot default, is not written out. */
  datatype TapSig = TapSig(schnorr: bytes, mode: u8)

  /** The six fields the check reads; `other` stands for the rest of a PSBT input. */
  datatype Input = Input(
    partialSigs: map<bytes, EcdsaSig>,
    tapKeySig: Option<TapSig>,
    tapScriptSigs: map<bytes, TapSig>,
    finalScriptSig: Option<bytes>,
    finalWitness: Option<seq<bytes>>,
    sighash: Option<nat>,
    other: bytes)

  /** The unsigned transaction is known by its wtxid. */
  datatype Psbt = Psbt(wtxid: bytes, inputs: seq<Input>)

  /** What a session keeps of the PSBT it was asked to sign, or nothing for other commands. */
  datatype Prior = Prior(inputs: seq<Input>, wtxid: Option<bytes>)

  datatype Verdict = Accepted | TransactionChanged | SignatureLost | WrongSighash

  function SerializeEcdsa(s: EcdsaSig): bytes {
    s.der + [s.mode]
  }

  function SerializeTap(s: TapSig): bytes {
    if s.mode == 0 then s.schnorr else s.schnorr + [s.mode]
  }

  /** The mode an ECDSA signature must carry: SIGHASH_ALL unless the input asks otherwise. */
  function EcdsaMode(i: Input): Option<u8> {
    match i.sighash
    case None => Some(0x01)
    case Some(raw) => if raw in {0x01, 0x02, 0x03, 0x81, 0x82, 0x83} then Some(raw) else None
  }

  function TapMode(i: Input): Option<u8> {
    match i.sighash
    case None => Some(0x00)
    case Some(raw) => if raw in {0x00, 0x01, 0x02, 0x03, 0x81, 0x82, 0x83} then Some(raw) else None
  }

  // ------------------------------------------------------------------ scripts

  function Le(s: bytes): nat {
    if s == [] then 0 else s[0] + 0x100 * Le(s[1..])
  }

  /** How many length bytes follow a push opcode, and what length it stands for without them. */
  function LengthBytes(opcode: u8): nat {
    if opcode == 0x4c then 1 else if opcode == 0x4d then 2 else if opcode == 0x4e then 4 else 0
  }

  /**
   Whether a script parses to its end and pushes `sig` somewhere; a script that breaks off
   inside a push contains nothing.
   */
  function Pushes(script: bytes, sig: bytes): (found: Option<bool>)
    decreases script
  {
    if script == [] then Some(false)
    else
      var n := LengthBytes(script[0]);
      if script[0] > 0x4e then Pushes(script[1..], sig)
      else if |script| < 1 + n then None
      else
        var size := if n == 0 then script[0] else Le(script[1..1 + n]);
        if |script| < 1 + n + size then None
        else
          var rest := Pushes(script[1 + n + size..], sig);
          if rest.None? then None
          else Some(script[1 + n..1 + n + size] == sig || rest.value)
  }

  predicate FinalContains(i: Input, sig: bytes) {
    (i.finalWitness.Some? && sig in i.finalWitness.value)
    || (i.finalScriptSig.Some? && Pushes(i.finalScriptSig.value, sig) == Some(true))
  }

  // ------------------------------------------------------------------ the gate

  predicate EcdsaKept(o: Input, r: Input) {
    forall k :: k in o.partialSigs ==>
      if k in r.partialSigs then r.partialSigs[k] == o.partialSigs[k]
      else FinalContains(r, SerializeEcdsa(o.partialSigs[k]))
  }

  predicate TapScriptKept(o: Input, r: Input) {
    forall k :: k in o.tapScriptSigs ==>
      if k in r.tapScriptSigs then r.tapScriptSigs[k] == o.tapScriptSigs[k]
      else FinalContains(r, SerializeTap(o.tapScriptSigs[k]))
  }

  predicate TapKeyKept(o: Input, r: Input) {
    o.tapKeySig.Some? ==>
      if r.tapKeySig.Some? then r.tapKeySig == o.tapKeySig
      else FinalContains(r, SerializeTap(o.tapKeySig.value))
  }

  predicate FinalsKept(o: Input, r: Input) {
    (o.finalScriptSig.Some? ==> r.finalScriptSig == o.finalScriptSig)
    && (o.finalWitness.Some? ==> r.finalWitness == o.finalWitness)
  }

  predicate Preserved(o: Input, r: Input) {
    EcdsaKept(o, r) && TapScriptKept(o, r) && TapKeyKept(o, r) && FinalsKept(o, r)
  }

  /** Signatures the original did not have carry the mode the original asks for. */
  predicate ModesMatch(o: Input, r: Input) {
    (forall k :: k in r.partialSigs && k !in o.partialSigs ==> EcdsaMode(o) == Some(r.partialSigs[k].mode))
    && (forall k :: k in r.tapScriptSigs && k !in o.tapScriptSigs ==> TapMode(o) == Some(r.tapScriptSigs[k].mode))
    && (o.tapKeySig.None? && r.tapKeySig.Some? ==> TapMode(o) == Some(r.tapKeySig.value.mode))
  }

  predicate InputAccepted(o: Input, r: Input) {
    Preserved(o, r) && ModesMatch(o, r)
  }

  /** `Session.start` keeps six fields of each input. */
  function Copied(i: Input): Input {
    i.(other := [])
  }

  function PriorOf(p: Psbt): (prior: Prior)
    ensures |prior.inputs| == |p.inputs|
  {
    Prior(seq(|p.inputs|, n requires 0 <= n < |p.inputs| => Copied(p.inputs[n])), Some(p.wtxid))
  }

  /** The first complaint in input order; within an input a lost signature comes first. */
  function InputsVerdict(os: seq<Input>, rs: seq<Input>): Verdict
    requires |os| == |rs|
  {
    if os == [] then Accepted
    else if !Preserved(os[0], rs[0]) then SignatureLost
    else if !ModesMatch(os[0], rs[0]) then WrongSighash
    else InputsVerdict(os[1..], rs[1..])
  }

  /** The check as `end` runs it. */
  method CheckReturned(prior: Prior, psbt: Psbt) returns (v: Verdict)
    ensures v == TransactionChanged <==> prior.wtxid != Some(psbt.wtxid) || |psbt.inputs| != |prior.inputs|
    ensures v != TransactionChanged ==> v == InputsVerdict(prior.inputs, psbt.inputs)
  {
    if prior.wtxid != Some(psbt.wtxid) || |psbt.inputs| != |prior.inputs| {
      return TransactionChanged;
    }
    VerdictIsNotTransaction(prior.inputs, psbt.inputs);
    var n := 0;
    while n < |prior.inputs|
      invariant n <= |prior.inputs|
      invariant InputsVerdict(prior.inputs, psbt.inputs) == InputsVerdict(prior.inputs[n..], psbt.inputs[n..])
    {
      var original, returned := prior.inputs[n], psbt.inputs[n];
      if !Preserved(original, returned) {
        return SignatureLost;
      }
      if !ModesMatch(original, returned) {
        return WrongSighash;
      }
      n := n + 1;
    }
    v := Accepted;
  }

  lemma VerdictIsNotTransaction(os: seq<Input>, rs: seq<Input>)
    requires |os| == |rs|
    ensures InputsVerdict(os, rs) != TransactionChanged
  {
  }

  /** One accepted session: the returned PSBT `r` for the requested PSBT `o`. */
  predicate SessionAccepts(o: Psbt, r: Psbt) {
    o.wtxid == r.wtxid && |o.inputs| == |r.inputs|
    && forall n :: 0 <= n < |o.inputs| ==> InputAccepted(o.inputs[n], r.inputs[n])
  }

  /** The copies kept at the start decide exactly as the whole original inputs would. */
  lemma {:induction false} CopiesDecide(o: Psbt, r: Psbt)
    requires o.wtxid == r.wtxid && |o.inputs| == |r.inputs|
    ensures InputsVerdict(PriorOf(o).inputs, r.inputs) == Accepted <==> SessionAccepts(o, r)
  {
    var os := PriorOf(o).inputs;
    VerdictIsPointwise(os, r.inputs);
    forall n | 0 <= n < |o.inputs| ensures InputAccepted(os[n], r.inputs[n]) <==> InputAccepted(o.inputs[n], r.inputs[n]) {
      CopyDecides(o.inputs[n], r.inputs[n]);
    }
  }

  lemma CopyDecides(o: Input, r: Input)
    ensures InputAccepted(Copied(o), r) <==> InputAccepted(o, r)
  {
  }

  lemma {:induction false} VerdictIsPointwise(os: seq<Input>, rs: seq<Input>)
    requires |os| == |rs|
    ensures InputsVerdict(os, rs) == Accepted <==> forall n :: 0 <= n < |os| ==> InputAccepted(os[n], rs[n])
    decreases os
  {
    if os != [] {
      VerdictIsPointwise(os[1..], rs[1..]);
      assert forall n :: 1 <= n < |os| ==> os[n] == os[1..][n - 1] && rs[n] == rs[1..][n - 1];
    }
  }

  lemma UnchangedIsAccepted(p: Psbt)
    ensures SessionAccepts(p, p)
  {
  }

  /** Conforming signatures for further keys never turn an accepted result away. */
  lemma MoreSignaturesAreAccepted(o: Input, r: Input, key: bytes, sig: EcdsaSig, leaf: bytes, tap: TapSig)
    requires InputAccepted(o, r)
    requires key !in o.partialSigs && EcdsaMode(o) == Some(sig.mode)
    requires leaf !in o.tapScriptSigs && TapMode(o) == Some(tap.mode)
    ensures InputAccepted(o, r.(partialSigs := r.partialSigs[key := sig]))
    ensures InputAccepted(o, r.(tapScriptSigs := r.tapScriptSigs[leaf := tap]))
    ensures r.tapKeySig.None? && o.tapKeySig.None? ==> InputAccepted(o, r.(tapKeySig := Some(tap)))
  {
  }

  // ------------------------------------------------- what a final field contains

  /** One script instruction: an opcode that pushes nothing, or a push with the way its length is written. */
  datatype Instr = Op(code: u8) | Push(data: bytes, form: LengthForm)

  datatype LengthForm = InOpcode | OneByte | TwoBytes | FourBytes

  predicate ValidInstr(i: Instr) {
    match i
    case Op(code) => code > 0x4e
    case Push(data, InOpcode) => |data| <= 75
    case Push(data, OneByte) => |data| < 0x100
    case Push(data, TwoBytes) => |data| < 0x1_0000
    case Push(data, FourBytes) => |data| < 0x1_0000_0000
  }

  /** A number in `width` bytes, least significant first. */
  function LeBytes(n: nat, width: nat): (b: bytes)
    ensures |b| == width
  {
    if width == 0 then [] else [n % 0x100] + LeBytes(n / 0x100, width - 1)
  }

  function Assemble(i: Instr): bytes {
    match i
    case Op(code) => [code]
    case Push(data, InOpcode) => [|data| % 0x100] + data
    case Push(data, OneByte) => [0x4c] + LeBytes(|data|, 1) + data
    case Push(data, TwoBytes) => [0x4d] + LeBytes(|data|, 2) + data
    case Push(data, FourBytes) => [0x4e] + LeBytes(|data|, 4) + data
  }

  function AssembleAll(s: seq<Instr>): bytes {
    if s == [] then [] else Assemble(s[0]) + AssembleAll(s[1..])
  }

  predicate AllValid(s: seq<Instr>) {
    forall k :: 0 <= k < |s| ==> ValidInstr(s[k])
  }

  predicate PushesData(s: seq<Instr>, sig: bytes) {
    exists k :: 0 <= k < |s| && s[k].Push? && s[k].data == sig
  }

  function Power(width: nat): nat {
    if width == 0 then 1 else 0x100 * Power(width - 1)
  }

  lemma {:induction false} LeReads(n: nat, width: nat)
    requires n < Power(width)
    ensures Le(LeBytes(n, width)) == n
    decreases width
  {
    if width > 0 {
      assert n / 0x100 < Power(width - 1);
      LeReads(n / 0x100, width - 1);
      assert LeBytes(n, width)[1..] == LeBytes(n / 0x100, width - 1);
    }
  }

  lemma {:induction false} LeWrites(b: bytes)
    ensures LeBytes(Le(b), |b|) == b && Le(b) < Power(|b|)
    decreases b
  {
    if b != [] {
      LeWrites(b[1..]);
      assert (b[0] + 0x100 * Le(b[1..])) % 0x100 == b[0] && (b[0] + 0x100 * Le(b[1..])) / 0x100 == Le(b[1..]);
    }
  }

  lemma Powers()
    ensures Power(1) == 0x100 && Power(2) == 0x1_0000 && Power(4) == 0x1_0000_0000
  {
    assert Power(0) == 1 && Power(3) == 0x100 * Power(2);
  }

  /** One instruction at the head of a script, as the parser sees it. */
  lemma PushHead(i: Instr, rest: bytes, sig: bytes)
    requires ValidInstr(i)
    ensures Pushes(Assemble(i) + rest, sig)
         == match Pushes(rest, sig)
            case None => None
            case Some(found) => Some(found || (i.Push? && i.data == sig))
  {
    var script := Assemble(i) + rest;
    match i {
      case Op(code) =>
        assert script[1..] == rest;
      case Push(data, form) =>
        Powers();
        var n := LengthBytes(script[0]);
        assert n == match form case InOpcode => 0 case OneByte => 1 case TwoBytes => 2 case FourBytes => 4;
        var length := LeBytes(|data|, n);
        LengthIsRead(script, i, rest, n, length);
    }
  }

  lemma LengthIsRead(script: bytes, i: Instr, rest: bytes, n: nat, length: bytes)
    requires i.Push? && ValidInstr(i) && script == Assemble(i) + rest
    requires n == match i.form case InOpcode => 0 case OneByte => 1 case TwoBytes => 2 case FourBytes => 4
    requires length == LeBytes(|i.data|, n)
    ensures script[0] <= 0x4e && LengthBytes(script[0]) == n && |script| >= 1 + n + |i.data|
    ensures |i.data| == if n == 0 then script[0] else Le(script[1..1 + n])
    ensures script[1 + n..1 + n + |i.data|] == i.data && script[1 + n + |i.data|..] == rest
  {
    Powers();
    var head: u8 := if n == 0 then |i.data| else if n == 1 then 0x4c else if n == 2 then 0x4d else 0x4e;
    assert n == 0 ==> [head] + length == [head];
    assert script == (([head] + length) + i.data) + rest;
    CutPush(head, length, i.data, rest);
    if n > 0 {
      LeReads(|i.data|, n);
    }
  }

  lemma CutPush(head: u8, length: bytes, data: bytes, rest: bytes)
    ensures var script := (([head] + length) + data) + rest;
            var n := |length|;
            script[0] == head && script[1..1 + n] == length && script[1 + n..1 + n + |data|] == data
            && script[1 + n + |data|..] == rest
  {
  }

  /** Whatever is assembled parses to its end, and pushes exactly the data of its push instructions. */
  lemma {:induction false} ParsesAssembled(s: seq<Instr>, sig: bytes)
    requires AllValid(s)
    ensures Pushes(AssembleAll(s), sig) == Some(PushesData(s, sig))
    decreases s
  {
    if s != [] {
      ParsesAssembled(s[1..], sig);
      PushHead(s[0], AssembleAll(s[1..]), sig);
      assert PushesData(s, sig) <==> (s[0].Push? && s[0].data == sig) || PushesData(s[1..], sig) by {
        assert forall k :: 1 <= k < |s| ==> s[k] == s[1..][k - 1];
      }
    }
  }

  /** Whatever parses to its end was assembled from instructions, and here they are. */
  lemma {:induction false} Disassemble(script: bytes) returns (s: seq<Instr>)
    requires Pushes(script, []).Some?
    ensures AllValid(s) && AssembleAll(s) == script
    decreases script
  {
    s := [];
    if script != [] {
      var i, k := FirstInstr(script);
      var rest := Disassemble(script[k..]);
      s := OneInstrMore(i, rest);
      assert script == script[..k] + script[k..];
    }
  }

  lemma OneInstrMore(i: Instr, rest: seq<Instr>) returns (s: seq<Instr>)
    requires ValidInstr(i) && AllValid(rest)
    ensures AllValid(s) && AssembleAll(s) == Assemble(i) + AssembleAll(rest)
  {
    s := [i] + rest;
    assert s[1..] == rest;
  }

  lemma FirstInstr(script: bytes) returns (i: Instr, k: nat)
    requires script != [] && Pushes(script, []).Some?
    ensures 0 < k <= |script| && ValidInstr(i) && Assemble(i) == script[..k] && Pushes(script[k..], []).Some?
  {
    var n := LengthBytes(script[0]);
    if script[0] > 0x4e {
      i, k := Op(script[0]), 1;
      assert script[..1] == [script[0]];
    } else {
      var size := if n == 0 then script[0] else Le(script[1..1 + n]);
      k := 1 + n + size;
      i := FirstPush(script, n, size);
    }
  }

  lemma FirstPush(script: bytes, n: nat, size: nat) returns (i: Instr)
    requires script != [] && script[0] <= 0x4e && n == LengthBytes(script[0]) && |script| >= 1 + n + size
    requires size == if n == 0 then script[0] else Le(script[1..1 + n])
    ensures ValidInstr(i) && Assemble(i) == script[..1 + n + size]
  {
    Powers();
    var data := script[1 + n..1 + n + size];
    i := Push(data, if n == 0 then InOpcode else if n == 1 then OneByte else if n == 2 then TwoBytes else FourBytes);
    if n > 0 {
      LeWrites(script[1..1 + n]);
      assert script[..1 + n + size] == [script[0]] + script[1..1 + n] + data;
    } else {
      assert script[..1 + size] == [script[0]] + data;
    }
  }

  lemma {:induction false} ParsingIgnoresData(script: bytes, a: bytes, b: bytes)
    ensures Pushes(script, a).Some? == Pushes(script, b).Some?
    decreases script
  {
    if script != [] {
      var n := LengthBytes(script[0]);
      if script[0] > 0x4e {
        ParsingIgnoresData(script[1..], a, b);
      } else if |script| >= 1 + n {
        var size := if n == 0 then script[0] else Le(script[1..1 + n]);
        if |script| >= 1 + n + size {
          ParsingIgnoresData(script[1 + n + size..], a, b);
        }
      }
    }
  }

  /** The script is a list of instructions, and one of them pushes exactly this. */
  ghost predicate ScriptPushes(script: bytes, sig: bytes) {
    exists s :: AllValid(s) && AssembleAll(s) == script && PushesData(s, sig)
  }

  /** The parser finds a push exactly in the scripts assembled with one. */
  lemma PushesIff(script: bytes, sig: bytes)
    ensures Pushes(script, sig) == Some(true) <==> ScriptPushes(script, sig)
    ensures Pushes(script, sig) == None <==> !exists s :: AllValid(s) && AssembleAll(s) == script
  {
    if Pushes(script, sig).Some? {
      ParsingIgnoresData(script, sig, []);
      var s := Disassemble(script);
      ParsesAssembled(s, sig);
    }
    forall s | AllValid(s) && AssembleAll(s) == script ensures Pushes(script, sig) == Some(PushesData(s, sig)) {
      ParsesAssembled(s, sig);
    }
  }

  /** A final field holds these bytes: as a witness item, or as the data of a push in the final script. */
  ghost predicate InFinals(i: Input, sig: bytes) {
    (i.finalWitness.Some? && exists k :: 0 <= k < |i.finalWitness.value| && i.finalWitness.value[k] == sig)
    || (i.finalScriptSig.Some? && ScriptPushes(i.finalScriptSig.value, sig))
  }

  lemma FinalContainsIff(i: Input, sig: bytes)
    ensures FinalContains(i, sig) <==> InFinals(i, sig)
  {
    if i.finalScriptSig.Some? {
      PushesIff(i.finalScriptSig.value, sig);
    }
  }

  // ------------------------------------------------------- what acceptance means

  /** Where an input carries signatures: the three fields the check on modes reads. */
  datatype Slot = EcdsaSlot(key: bytes) | TapScriptSlot(leaf: bytes) | TapKeySlot

  datatype AnySig = AnEcdsa(ecdsa: EcdsaSig) | ATap(tap: TapSig)

  function SigIn(i: Input, slot: Slot): Option<AnySig> {
    match slot
    case EcdsaSlot(key) => if key in i.partialSigs then Some(AnEcdsa(i.partialSigs[key])) else None
    case TapScriptSlot(leaf) => if leaf in i.tapScriptSigs then Some(ATap(i.tapScriptSigs[leaf])) else None
    case TapKeySlot => if i.tapKeySig.Some? then Some(ATap(i.tapKeySig.value)) else None
  }

  function ModeOf(s: AnySig): u8 {
    match s
    case AnEcdsa(e) => e.mode
    case ATap(t) => t.mode
  }

  /** The mode the input's sighash field asks of a new signature in this slot. */
  function AskedMode(i: Input, slot: Slot): Option<u8> {
    if slot.EcdsaSlot? then EcdsaMode(i) else TapMode(i)
  }

  /** The bytes a finalizer puts into a final field for a signature. */
  function BytesOf(s: AnySig): bytes {
    match s
    case AnEcdsa(e) => SerializeEcdsa(e)
    case ATap(t) => SerializeTap(t)
  }

  /** Serialized signatures determine the signature: 64 Schnorr bytes, and a mode byte unless it is the default. */
  lemma SerializationIsExact(e: EcdsaSig, f: EcdsaSig, t: TapSig, u: TapSig)
    requires |t.schnorr| == |u.schnorr| == 64
    ensures SerializeEcdsa(e) == SerializeEcdsa(f) ==> e == f
    ensures SerializeTap(t) == SerializeTap(u) ==> t == u
    ensures SerializeEcdsa(e)[|e.der|] == e.mode && |SerializeTap(t)| == if t.mode == 0 then 64 else 65
  {
    assert SerializeEcdsa(e)[..|SerializeEcdsa(e)| - 1] == e.der && SerializeEcdsa(f)[..|SerializeEcdsa(f)| - 1] == f.der;
    assert SerializeTap(t)[..64] == t.schnorr && SerializeTap(u)[..64] == u.schnorr;
    assert t.mode != 0 ==> SerializeTap(t)[64] == t.mode;
    assert u.mode != 0 ==> SerializeTap(u)[64] == u.mode;
  }

  /** ALL, NONE or SINGLE, alone or with ANYONECANPAY. */
  predicate StandardMode(m: nat) {
    1 <= m % 0x80 <= 3 && m / 0x80 <= 1
  }

  /** Without a sighash field ECDSA signatures use ALL and Taproot ones the default; a field must name a standard mode. */
  lemma AskedModeIff(i: Input, slot: Slot, m: u8)
    ensures AskedMode(i, slot) == Some(m)
       <==> if i.sighash == None then m == (if slot.EcdsaSlot? then 1 else 0)
            else i.sighash == Some(m as nat) && (StandardMode(m) || (m == 0 && !slot.EcdsaSlot?))
  {
  }

  /**
   What the gate is for, slot by slot: a signature of the request is still in its slot or gone
   from it into a final field, final fields that were set stay as they are, and a signature in
   a slot that was empty carries the mode the request asks for.
   */
  ghost predicate Faithful(o: Input, r: Input) {
    (forall slot :: SigIn(o, slot).Some? ==>
       SigIn(r, slot) == SigIn(o, slot) || (SigIn(r, slot) == None && InFinals(r, BytesOf(SigIn(o, slot).value))))
    && (forall slot :: SigIn(o, slot) == None && SigIn(r, slot).Some? ==>
          AskedMode(o, slot) == Some(ModeOf(SigIn(r, slot).value)))
    && (o.finalScriptSig == None || r.finalScriptSig == o.finalScriptSig)
    && (o.finalWitness == None || r.finalWitness == o.finalWitness)
  }

  /** The gate accepts an input exactly if it is faithful in this sense. */
  lemma AcceptedIff(o: Input, r: Input)
    ensures InputAccepted(o, r) <==> Faithful(o, r)
  {
    if InputAccepted(o, r) {
      AcceptedIsFaithful(o, r);
    }
    if Faithful(o, r) {
      FaithfulIsAccepted(o, r);
    }
  }

  lemma AcceptedIsFaithful(o: Input, r: Input)
    requires InputAccepted(o, r)
    ensures Faithful(o, r)
  {
    forall slot | SigIn(o, slot).Some?
      ensures SigIn(r, slot) == SigIn(o, slot) || (SigIn(r, slot) == None && InFinals(r, BytesOf(SigIn(o, slot).value)))
    {
      FinalContainsIff(r, BytesOf(SigIn(o, slot).value));
    }
  }

  lemma FaithfulIsAccepted(o: Input, r: Input)
    requires Faithful(o, r)
    ensures InputAccepted(o, r)
  {
    forall k | k in o.partialSigs && k !in r.partialSigs ensures FinalContains(r, SerializeEcdsa(o.partialSigs[k])) {
      assert SigIn(o, EcdsaSlot(k)).Some?;
      FinalContainsIff(r, SerializeEcdsa(o.partialSigs[k]));
    }
    forall k | k in o.partialSigs && k in r.partialSigs ensures r.partialSigs[k] == o.partialSigs[k] {
      assert SigIn(o, EcdsaSlot(k)).Some?;
    }
    forall k | k in o.tapScriptSigs && k !in r.tapScriptSigs ensures FinalContains(r, SerializeTap(o.tapScriptSigs[k])) {
      assert SigIn(o, TapScriptSlot(k)).Some?;
      FinalContainsIff(r, SerializeTap(o.tapScriptSigs[k]));
    }
    forall k | k in o.tapScriptSigs && k in r.tapScriptSigs ensures r.tapScriptSigs[k] == o.tapScriptSigs[k] {
      assert SigIn(o, TapScriptSlot(k)).Some?;
    }
    if o.tapKeySig.Some? {
      assert SigIn(o, TapKeySlot).Some?;
      FinalContainsIff(r, SerializeTap(o.tapKeySig.value));
    }
    NewModesMatch(o, r);
  }

  lemma NewModesMatch(o: Input, r: Input)
    requires Faithful(o, r)
    ensures ModesMatch(o, r)
  {
    forall k | k in r.partialSigs && k !in o.partialSigs ensures EcdsaMode(o) == Some(r.partialSigs[k].mode) {
      assert SigIn(r, EcdsaSlot(k)).Some?;
    }
    forall k | k in r.tapScriptSigs && k !in o.tapScriptSigs ensures TapMode(o) == Some(r.tapScriptSigs[k].mode) {
      assert SigIn(r, TapScriptSlot(k)).Some?;
    }
    if o.tapKeySig.None? && r.tapKeySig.Some? {
      assert SigIn(r, TapKeySlot).Some?;
    }
  }

  /** Which complaint comes: that of the first input that is refused, a lost signature before a wrong mode. */
  lemma {:induction false} VerdictIff(os: seq<Input>, rs: seq<Input>)
    requires |os| == |rs|
    ensures InputsVerdict(os, rs) == SignatureLost
       <==> exists n :: 0 <= n < |os| && AcceptedBefore(os, rs, n) && !Preserved(os[n], rs[n])
    ensures InputsVerdict(os, rs) == WrongSighash
       <==> exists n :: 0 <= n < |os| && AcceptedBefore(os, rs, n) && Preserved(os[n], rs[n]) && !ModesMatch(os[n], rs[n])
    decreases os
  {
    if os != [] {
      VerdictIff(os[1..], rs[1..]);
      forall n | 1 <= n <= |os|
        ensures AcceptedBefore(os, rs, n) <==> InputAccepted(os[0], rs[0]) && AcceptedBefore(os[1..], rs[1..], n - 1)
      {
        assert forall k :: 1 <= k < n ==> os[k] == os[1..][k - 1] && rs[k] == rs[1..][k - 1];
      }
      assert AcceptedBefore(os, rs, 0);
      assert forall n :: 1 <= n < |os| ==> os[n] == os[1..][n - 1] && rs[n] == rs[1..][n - 1];
    }
  }

  predicate AcceptedBefore(os: seq<Input>, rs: seq<Input>, n: nat)
    requires n <= |os| == |rs|
  {
    forall k :: 0 <= k < n ==> InputAccepted(os[k], rs[k])
  }

  // ------------------------------------------------------------ over a chain

  /** Every session starts from the PSBT the one before returned. */
  predicate Chain(ps: seq<Psbt>) {
    forall k :: 0 <= k < |ps| - 1 ==> SessionAccepts(ps[k], ps[k + 1])
  }

  /** The signature is there: in its slot, or inside a final script or witness. */
  ghost predicate Holds(i: Input, slot: Slot, sig: AnySig) {
    SigIn(i, slot) == Some(sig) || InFinals(i, BytesOf(sig))
  }

  /** The transaction and the number of inputs are those of the first request. */
  lemma {:induction false} TransactionIsFixed(ps: seq<Psbt>, i: nat, j: nat)
    requires Chain(ps) && i <= j < |ps|
    ensures ps[j].wtxid == ps[i].wtxid && |ps[j].inputs| == |ps[i].inputs|
    decreases j - i
  {
    if i < j {
      assert SessionAccepts(ps[j - 1], ps[j - 1 + 1]);
      TransactionIsFixed(ps, i, j - 1);
    }
  }

  /** A final script or witness, once set, never changes. */
  lemma {:induction false} FinalsAreFixed(ps: seq<Psbt>, i: nat, j: nat, n: nat)
    requires Chain(ps) && i <= j < |ps| && n < |ps[i].inputs|
    ensures n < |ps[j].inputs|
    ensures ps[i].inputs[n].finalScriptSig.Some? ==> ps[j].inputs[n].finalScriptSig == ps[i].inputs[n].finalScriptSig
    ensures ps[i].inputs[n].finalWitness.Some? ==> ps[j].inputs[n].finalWitness == ps[i].inputs[n].finalWitness
    decreases j - i
  {
    if i < j {
      FinalsAreFixed(ps, i, j - 1, n);
      assert SessionAccepts(ps[j - 1], ps[j - 1 + 1]);
      assert InputAccepted(ps[j - 1].inputs[n], ps[j].inputs[n]);
    }
  }

  lemma HeldAfterSession(o: Input, r: Input, slot: Slot, sig: AnySig)
    requires InputAccepted(o, r) && Holds(o, slot, sig)
    ensures Holds(r, slot, sig)
  {
    AcceptedIff(o, r);
  }

  lemma HeldInChain(ps: seq<Psbt>, k: nat, next: nat, n: nat, slot: Slot, sig: AnySig)
    requires Chain(ps) && next == k + 1 < |ps| && n < |ps[k].inputs| && Holds(ps[k].inputs[n], slot, sig)
    ensures n < |ps[next].inputs| && Holds(ps[next].inputs[n], slot, sig)
  {
    assert SessionAccepts(ps[k], ps[k + 1]);
    HeldAfterSession(ps[k].inputs[n], ps[k + 1].inputs[n], slot, sig);
  }

  /**
   No signature that was ever there is lost, whatever the sessions in between did: it is in
   its slot, an item of the witness, or the data of a push in the final script.
   */
  lemma {:induction false} NoSignatureIsLost(ps: seq<Psbt>, i: nat, j: nat, n: nat, slot: Slot, sig: AnySig)
    requires Chain(ps) && i <= j < |ps| && n < |ps[i].inputs| && Holds(ps[i].inputs[n], slot, sig)
    ensures n < |ps[j].inputs| && Holds(ps[j].inputs[n], slot, sig)
    decreases j - i
  {
    if i < j {
      NoSignatureIsLost(ps, i, j - 1, n, slot, sig);
      HeldInChain(ps, j - 1, j, n, slot, sig);
    }
  }

  /** One accepted session leaves a filled slot as it was, or fills an empty one with the mode asked for. */
  lemma SlotAfterSession(o: Input, r: Input, slot: Slot)
    requires InputAccepted(o, r) && SigIn(r, slot).Some?
    ensures if SigIn(o, slot).Some? then SigIn(o, slot) == SigIn(r, slot)
            else AskedMode(o, slot) == Some(ModeOf(SigIn(r, slot).value))
  {
  }

  /**
   Every signature in a slot, ECDSA or Taproot, was there from the start, or was put there by
   a session whose own request, and not what that session returned, names its mode.
   */
  lemma {:induction false} ModeComesFromTheRequest(ps: seq<Psbt>, j: nat, n: nat, slot: Slot) returns (s: nat)
    requires Chain(ps) && j < |ps| && n < |ps[j].inputs| && SigIn(ps[j].inputs[n], slot).Some?
    ensures s <= j
    ensures forall k :: s <= k <= j ==>
              n < |ps[k].inputs| && SigIn(ps[k].inputs[n], slot) == SigIn(ps[j].inputs[n], slot)
    ensures s > 0 ==>
              n < |ps[s - 1].inputs| && SigIn(ps[s - 1].inputs[n], slot) == None
              && AskedMode(ps[s - 1].inputs[n], slot) == Some(ModeOf(SigIn(ps[j].inputs[n], slot).value))
    decreases j
  {
    s := j;
    if j > 0 {
      assert SessionAccepts(ps[j - 1], ps[j - 1 + 1]);
      assert InputAccepted(ps[j - 1].inputs[n], ps[j].inputs[n]);
      SlotAfterSession(ps[j - 1].inputs[n], ps[j].inputs[n], slot);
      if SigIn(ps[j - 1].inputs[n], slot).Some? {
        s := ModeComesFromTheRequest(ps, j - 1, n, slot);
      }
    }
  }

  /** So when no PSBT of the chain changes the request, all new signatures carry its mode. */
  lemma SteadyRequestsFixTheMode(ps: seq<Psbt>, j: nat, n: nat, slot: Slot)
    requires Chain(ps) && j < |ps| && n < |ps[j].inputs| && SigIn(ps[j].inputs[n], slot).Some?
    requires forall k :: 0 <= k < j && n < |ps[k].inputs| ==> ps[k].inputs[n].sighash == ps[j].inputs[n].sighash
    ensures AskedMode(ps[j].inputs[n], slot) == Some(ModeOf(SigIn(ps[j].inputs[n], slot).value))
         || (n < |ps[0].inputs| && SigIn(ps[0].inputs[n], slot) == SigIn(ps[j].inputs[n], slot))
  {
    var s := ModeComesFromTheRequest(ps, j, n, slot);
  }

  // ------------------------------------------------- skipping the middle PSBT

  /** Keys whose signature the middle PSBT moved into a final field stay unused or unchanged. */
  predicate NoKeyReused(a: Input, b: Input, c: Input) {
    && (forall k :: k in a.partialSigs && k !in b.partialSigs && k in c.partialSigs ==>
          c.partialSigs[k] == a.partialSigs[k])
    && (forall k :: k in a.tapScriptSigs && k !in b.tapScriptSigs && k in c.tapScriptSigs ==>
          c.tapScriptSigs[k] == a.tapScriptSigs[k])
    && (a.tapKeySig.Some? && b.tapKeySig.None? && c.tapKeySig.Some? ==> c.tapKeySig == a.tapKeySig)
  }

  /** Signatures that came with the second session carry the mode of the first request. */
  predicate LateModesMatch(a: Input, b: Input, c: Input) {
    && (forall k :: k in c.partialSigs && k !in b.partialSigs && k !in a.partialSigs ==>
          EcdsaMode(a) == Some(c.partialSigs[k].mode))
    && (forall k :: k in c.tapScriptSigs && k !in b.tapScriptSigs && k !in a.tapScriptSigs ==>
          TapMode(a) == Some(c.tapScriptSigs[k].mode))
    && (c.tapKeySig.Some? && b.tapKeySig.None? && a.tapKeySig.None? ==>
          TapMode(a) == Some(c.tapKeySig.value.mode))
  }

  /** Two accepted sessions amount to one accepted session exactly under these conditions. */
  lemma ComposesIff(a: Input, b: Input, c: Input)
    requires InputAccepted(a, b) && InputAccepted(b, c)
    ensures InputAccepted(a, c) <==> NoKeyReused(a, b, c) && LateModesMatch(a, b, c)
  {
  }

  /**
   No session that starts from `b` can bring an ECDSA signature the request `a` would refuse: `b`
   asks for no usable mode, or for the mode of `a` with every key of `a` still in its place.
   */
  predicate EcdsaSafe(a: Input, b: Input) {
    EcdsaMode(b).Some? ==> EcdsaMode(a) == EcdsaMode(b) && a.partialSigs.Keys <= b.partialSigs.Keys
  }

  predicate TapScriptSafe(a: Input, b: Input) {
    TapMode(b).Some? ==> TapMode(a) == TapMode(b) && a.tapScriptSigs.Keys <= b.tapScriptSigs.Keys
  }

  predicate TapKeySafe(a: Input, b: Input) {
    TapMode(b).Some? && b.tapKeySig.None? ==> TapMode(a) == TapMode(b) && a.tapKeySig.None?
  }

  /** What a host that holds the request and the first result can check before the next session. */
  predicate Safe(a: Input, b: Input) {
    EcdsaSafe(a, b) && TapScriptSafe(a, b) && TapKeySafe(a, b)
  }

  lemma SafeComposes(a: Input, b: Input, c: Input)
    requires InputAccepted(a, b) && InputAccepted(b, c) && Safe(a, b)
    ensures InputAccepted(a, c)
  {
    ComposesIff(a, b, c);
  }

  predicate AllSafe(a: Psbt, b: Psbt) {
    |a.inputs| == |b.inputs| && forall n :: 0 <= n < |a.inputs| ==> Safe(a.inputs[n], b.inputs[n])
  }

  lemma SafeSessions(a: Psbt, b: Psbt, c: Psbt)
    requires SessionAccepts(a, b) && SessionAccepts(b, c) && AllSafe(a, b)
    ensures SessionAccepts(a, c)
  {
    forall n | 0 <= n < |a.inputs| ensures InputAccepted(a.inputs[n], c.inputs[n]) {
      SafeComposes(a.inputs[n], b.inputs[n], c.inputs[n]);
    }
  }

  lemma {:induction false} FreshKey(keys: set<bytes>) returns (key: bytes)
    ensures key !in keys
    ensures forall k :: k in keys ==> |k| < |key|
    decreases |keys|
  {
    if keys == {} {
      key := [0];
    } else {
      var k :| k in keys;
      key := FreshKey(keys - {k});
      if |k| >= |key| {
        key := k + [0];
      }
    }
  }

  /** A next session that an unsafe pair lets through although the first request refuses its result. */
  lemma UnsafeEcdsa(a: Input, b: Input) returns (c: Input)
    requires !EcdsaSafe(a, b)
    ensures InputAccepted(b, c) && !InputAccepted(a, c)
  {
    var mode, key := EcdsaMode(b).value, [];
    if a.partialSigs.Keys <= b.partialSigs.Keys {
      key := FreshKey(a.partialSigs.Keys + b.partialSigs.Keys);
    } else {
      key :| key in a.partialSigs && key !in b.partialSigs;
    }
    var der := if key in a.partialSigs then a.partialSigs[key].der + [0] else [];
    c := b.(partialSigs := b.partialSigs[key := EcdsaSig(der, mode)]);
    assert InputAccepted(b, b) && (key in a.partialSigs ==> c.partialSigs[key] != a.partialSigs[key]);
  }

  lemma UnsafeTapScript(a: Input, b: Input) returns (c: Input)
    requires !TapScriptSafe(a, b)
    ensures InputAccepted(b, c) && !InputAccepted(a, c)
  {
    var mode, leaf := TapMode(b).value, [];
    if a.tapScriptSigs.Keys <= b.tapScriptSigs.Keys {
      leaf := FreshKey(a.tapScriptSigs.Keys + b.tapScriptSigs.Keys);
    } else {
      leaf :| leaf in a.tapScriptSigs && leaf !in b.tapScriptSigs;
    }
    var schnorr := if leaf in a.tapScriptSigs then a.tapScriptSigs[leaf].schnorr + [0] else [];
    c := b.(tapScriptSigs := b.tapScriptSigs[leaf := TapSig(schnorr, mode)]);
    assert InputAccepted(b, b) && (leaf in a.tapScriptSigs ==> c.tapScriptSigs[leaf] != a.tapScriptSigs[leaf]);
  }

  lemma UnsafeTapKey(a: Input, b: Input) returns (c: Input)
    requires !TapKeySafe(a, b)
    ensures InputAccepted(b, c) && !InputAccepted(a, c)
  {
    var schnorr := if a.tapKeySig.Some? then a.tapKeySig.value.schnorr + [0] else [];
    c := b.(tapKeySig := Some(TapSig(schnorr, TapMode(b).value)));
    assert InputAccepted(b, b) && (a.tapKeySig.Some? ==> c.tapKeySig != a.tapKeySig);
  }

  lemma UnsafeInput(a: Input, b: Input) returns (c: Input)
    requires !Safe(a, b)
    ensures InputAccepted(b, c) && !InputAccepted(a, c)
  {
    if !EcdsaSafe(a, b) {
      c := UnsafeEcdsa(a, b);
    } else if !TapScriptSafe(a, b) {
      c := UnsafeTapScript(a, b);
    } else {
      c := UnsafeTapKey(a, b);
    }
  }

  /**
   Whatever the next session returns, accepting it means the first request would accept it
   too, if and only if every input of the first result is safe for that request. Request and
   first result alone decide it.
   */
  lemma NextSessionIsSafeIff(a: Psbt, b: Psbt)
    requires SessionAccepts(a, b)
    ensures (forall c :: SessionAccepts(b, c) ==> SessionAccepts(a, c))
       <==> AllSafe(a, b)
  {
    if AllSafe(a, b) {
      forall c | SessionAccepts(b, c) ensures SessionAccepts(a, c) {
        SafeSessions(a, b, c);
      }
    } else {
      var n :| 0 <= n < |a.inputs| && !Safe(a.inputs[n], b.inputs[n]);
      var i := UnsafeInput(a.inputs[n], b.inputs[n]);
      var c := b.(inputs := b.inputs[n := i]);
      UnchangedIsAccepted(b);
      assert SessionAccepts(b, c) && !InputAccepted(a.inputs[n], c.inputs[n]);
    }
  }

  /** A chain whose PSBTs, but for the last, are each safe for the request before amounts to one session. */
  lemma {:induction false} SafeChainIsOneSession(ps: seq<Psbt>, i: nat, j: nat)
    requires Chain(ps) && i <= j < |ps|
    requires forall k :: i <= k < j - 1 ==> AllSafe(ps[k], ps[k + 1])
    ensures SessionAccepts(ps[i], ps[j])
    decreases j - i
  {
    if i == j {
      UnchangedIsAccepted(ps[i]);
    } else {
      assert SessionAccepts(ps[i], ps[i + 1]);
      if i + 1 < j {
        SafeChainIsOneSession(ps, i + 1, j);
        SafeSessions(ps[i], ps[i + 1], ps[j]);
      }
    }
  }

  /**
   The gate is not transitive: finalize a signature away, then sign again for its key. The
   first signature is still there, in the witness.
   */
  lemma ReuseAfterFinalizing(key: bytes, first: EcdsaSig, second: EcdsaSig) returns (a: Input, b: Input, c: Input)
    requires first != second && second.mode == 0x01
    ensures InputAccepted(a, b) && InputAccepted(b, c) && !InputAccepted(a, c)
    ensures Holds(a, EcdsaSlot(key), AnEcdsa(first)) && Holds(c, EcdsaSlot(key), AnEcdsa(first))
  {
    a := Input(map[key := first], None, map[], None, None, None, []);
    b := Input(map[], None, map[], None, Some([SerializeEcdsa(first)]), None, []);
    c := b.(partialSigs := map[key := second]);
    assert FinalContains(b, SerializeEcdsa(first));
    assert c.partialSigs[key] != a.partialSigs[key];
    assert !EcdsaKept(a, c);
    HeldAfterSession(a, b, EcdsaSlot(key), AnEcdsa(first));
    HeldAfterSession(b, c, EcdsaSlot(key), AnEcdsa(first));
  }

  /**
   The request itself is not protected: a session may return another sighash field, and the
   next session then accepts a signature the first request would have refused.
   */
  lemma RequestCanBeRewritten(key: bytes, der: bytes) returns (a: Input, b: Input, c: Input)
    ensures InputAccepted(a, b) && InputAccepted(b, c) && !InputAccepted(a, c)
    ensures a.sighash == Some(0x01) && c.partialSigs == map[key := EcdsaSig(der, 0x02)]
  {
    a := Input(map[], None, map[], None, None, Some(0x01), []);
    b := a.(sighash := Some(0x02));
    c := b.(partialSigs := map[key := EcdsaSig(der, 0x02)]);
    assert EcdsaMode(a) == Some(0x01) && EcdsaMode(b) == Some(0x02);
    assert key in c.partialSigs && key !in a.partialSigs;
  }
}
