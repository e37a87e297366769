/** The two read-only queries of the VLIQUID client (`vliquidBalanceOfMicroToken`
    and `vliquidMicroTokenAllowance`): each lays out one packet
    `header | envelope | input record`, sends exactly the header's declared
    size of it, and then walks the received buffer frame by frame, keeping the
    output record of the last response frame that has room for one.

    The connection is not modelled: the bytes handed to `sendData` are a
    result and the buffer filled by `receiveDataAll` is a parameter. The
    identity-to-public-key conversion is the parameter `keyOf` and the random
    dejavu is the parameter `dejavu`. */
module Vliquid {
  import opened Bytes
  import opened Framing
  import opened VliquidStruct

  const VLIQUID_CONTRACT_INDEX: nat := 9
  const VLIQUID_MICRO_TOKEN_ALLOWANCE: nat := 1
  const VLIQUID_BALANCE_OF_MICRO_TOKEN: nat := 2

  /** The value of `size_t` arithmetic, which is taken modulo 2^64. */
  const SIZE_T_MODULUS: nat := 0x1_0000_0000_0000_0000

  // ---------------------------------------------------------------------------
  // Query packets

  /** The packet of a query: a request header whose size is the packet's
      length, the envelope addressing operation `inputType` of contract 9 with
      an input of `|input|` bytes, and the input record itself. */
  function QueryPacket(f: Framing, dejavu: nat, inputType: nat, input: seq<byte>): (p: seq<byte>)
    requires f.Valid()
    ensures |p| == f.headerLen + f.envelopeLen + |input|
  {
    f.writeHeader(f.headerLen + f.envelopeLen + |input|, f.requestType, dejavu)
    + f.writeEnvelope(VLIQUID_CONTRACT_INDEX, inputType, |input|)
    + input
  }

  /** Reading the packet back: its header declares exactly the packet's length
      and the request type, the envelope names contract 9, the operation and
      the input's length, and the input record closes the packet. */
  lemma QueryPacketLayout(f: Framing, dejavu: nat, inputType: nat, input: seq<byte>)
    requires f.Valid()
    requires f.headerLen + f.envelopeLen + |input| <= f.maxSize
    ensures var p := QueryPacket(f, dejavu, inputType, input);
      && f.sizeOf(p[..f.headerLen]) == |p|
      && f.typeOf(p[..f.headerLen]) == f.requestType
      && p[f.headerLen..f.headerLen + f.envelopeLen] == f.writeEnvelope(VLIQUID_CONTRACT_INDEX, inputType, |input|)
      && p[f.headerLen + f.envelopeLen..] == input
  {
    var p := QueryPacket(f, dejavu, inputType, input);
    var h := f.writeHeader(|p|, f.requestType, dejavu);
    assert p[..f.headerLen] == h;
  }

  /** `memcpy(dst + at, src, |src|)`: the bytes at `at` become `src`, the rest
      of `dst` is unchanged. */
  method CopyInto(dst: array<byte>, at: nat, src: seq<byte>)
    requires at + |src| <= dst.Length
    modifies dst
    ensures dst[..at] == old(dst[..at])
    ensures dst[at..at + |src|] == src
    ensures dst[at + |src|..] == old(dst[at + |src|..])
  {
    var i := 0;
    while i < |src|
      invariant 0 <= i <= |src|
      invariant forall k :: 0 <= k < dst.Length ==>
        dst[k] == if at <= k < at + i then src[k - at] else old(dst[k])
    {
      dst[at + i] := src[i];
      i := i + 1;
    }
    assert forall k :: 0 <= k < |src| ==> dst[at..at + |src|][k] == src[k];
  }

  /** After `memcpy` of `src` to `at`, a prefix of `dst` that already reached
      `at` reaches `at + |src|` with `src` appended. */
  lemma {:induction false} PrefixGrows(s: seq<byte>, at: nat, src: seq<byte>, before: seq<byte>)
    requires at + |src| <= |s|
    requires s[..at] == before && s[at..at + |src|] == src
    ensures s[..at + |src|] == before + src
  {
    assert s[..at + |src|] == s[..at] + s[at..at + |src|];
  }

  /** Lays out the header and the envelope at the front of a query packet
      (`setSize`, `randomizeDejavu`, `setType`, then the envelope's fields). */
  method WriteQueryPrefix(packet: array<byte>, f: Framing, dejavu: nat, inputType: nat, inputSize: nat)
    requires f.Valid()
    requires packet.Length == f.headerLen + f.envelopeLen + inputSize
    modifies packet
    ensures packet[..f.headerLen + f.envelopeLen]
         == f.writeHeader(packet.Length, f.requestType, dejavu)
            + f.writeEnvelope(VLIQUID_CONTRACT_INDEX, inputType, inputSize)
    ensures packet[f.headerLen + f.envelopeLen..] == old(packet[f.headerLen + f.envelopeLen..])
  {
    var header := f.writeHeader(packet.Length, f.requestType, dejavu);
    CopyInto(packet, 0, header);
    var envelope := f.writeEnvelope(VLIQUID_CONTRACT_INDEX, inputType, inputSize);
    CopyInto(packet, f.headerLen, envelope);
    PrefixGrows(packet[..], f.headerLen, envelope, header);
  }

  /** The bytes `vliquidBalanceOfMicroToken` sends: the issuer's public key,
      the first eight bytes of the asset name and the first 32 bytes of the
      owner argument as they are (the owner is not converted from an
      identity), after the header and the envelope of operation 2. */
  method BuildBalanceOfMicroTokenQuery(
    f: Framing, keyOf: seq<byte> -> Key, dejavu: nat,
    assetName: seq<byte>, issuer: seq<byte>, owner: seq<byte>)
    returns (sent: seq<byte>)
    requires f.Valid()
    requires f.headerLen + f.envelopeLen + BalanceOfMicroTokenInput.Size <= f.maxSize
    requires |assetName| >= 8 && |owner| >= 32
    ensures sent == QueryPacket(f, dejavu, VLIQUID_BALANCE_OF_MICRO_TOKEN,
                                BalanceOfMicroTokenInput(keyOf(issuer), U64Of(assetName[..8]), owner[..32]).Encode())
  {
    var inputAt := f.headerLen + f.envelopeLen;
    var packet := new byte[inputAt + BalanceOfMicroTokenInput.Size];
    WriteQueryPrefix(packet, f, dejavu, VLIQUID_BALANCE_OF_MICRO_TOKEN, BalanceOfMicroTokenInput.Size);
    ghost var filled := packet[..inputAt];
    CopyInto(packet, inputAt, keyOf(issuer));
    PrefixGrows(packet[..], inputAt, keyOf(issuer), filled);
    filled := filled + keyOf(issuer);
    CopyInto(packet, inputAt + 32, assetName[..8]);
    PrefixGrows(packet[..], inputAt + 32, assetName[..8], filled);
    filled := filled + assetName[..8];
    CopyInto(packet, inputAt + 40, owner[..32]);
    PrefixGrows(packet[..], inputAt + 40, owner[..32], filled);
    filled := filled + owner[..32];
    assert packet[..] == filled;

    ghost var input := BalanceOfMicroTokenInput(keyOf(issuer), U64Of(assetName[..8]), owner[..32]).Encode();
    U64BytesOf(assetName[..8]);
    assert input == keyOf(issuer) + assetName[..8] + owner[..32];
    SendsDeclaredSize(f, dejavu, VLIQUID_BALANCE_OF_MICRO_TOKEN, input, packet[..]);
    var header := packet[..f.headerLen];
    sent := packet[..f.sizeOf(header)];
  }

  /** The bytes `vliquidMicroTokenAllowance` sends: the public keys of the
      issuer, the recipient and the spender, and the first eight bytes of the
      asset name, after the header and the envelope of operation 1. */
  method BuildMicroTokenAllowanceQuery(
    f: Framing, keyOf: seq<byte> -> Key, dejavu: nat,
    assetName: seq<byte>, issuer: seq<byte>, recipient: seq<byte>, spender: seq<byte>)
    returns (sent: seq<byte>)
    requires f.Valid()
    requires f.headerLen + f.envelopeLen + MicroTokenAllowanceInput.Size <= f.maxSize
    requires |assetName| >= 8
    ensures sent == QueryPacket(f, dejavu, VLIQUID_MICRO_TOKEN_ALLOWANCE,
                                MicroTokenAllowanceInput(keyOf(issuer), U64Of(assetName[..8]),
                                                         keyOf(recipient), keyOf(spender)).Encode())
  {
    var inputAt := f.headerLen + f.envelopeLen;
    var packet := new byte[inputAt + MicroTokenAllowanceInput.Size];
    WriteQueryPrefix(packet, f, dejavu, VLIQUID_MICRO_TOKEN_ALLOWANCE, MicroTokenAllowanceInput.Size);
    ghost var filled := packet[..inputAt];
    CopyInto(packet, inputAt, keyOf(issuer));
    PrefixGrows(packet[..], inputAt, keyOf(issuer), filled);
    filled := filled + keyOf(issuer);
    CopyInto(packet, inputAt + 32, assetName[..8]);
    PrefixGrows(packet[..], inputAt + 32, assetName[..8], filled);
    filled := filled + assetName[..8];
    CopyInto(packet, inputAt + 40, keyOf(recipient));
    PrefixGrows(packet[..], inputAt + 40, keyOf(recipient), filled);
    filled := filled + keyOf(recipient);
    CopyInto(packet, inputAt + 72, keyOf(spender));
    PrefixGrows(packet[..], inputAt + 72, keyOf(spender), filled);
    filled := filled + keyOf(spender);
    assert packet[..] == filled;

    ghost var input := MicroTokenAllowanceInput(keyOf(issuer), U64Of(assetName[..8]),
                                                keyOf(recipient), keyOf(spender)).Encode();
    U64BytesOf(assetName[..8]);
    assert input == keyOf(issuer) + assetName[..8] + keyOf(recipient) + keyOf(spender);
    SendsDeclaredSize(f, dejavu, VLIQUID_MICRO_TOKEN_ALLOWANCE, input, packet[..]);
    var header := packet[..f.headerLen];
    sent := packet[..f.sizeOf(header)];
  }

  /** A packet laid out as the header and envelope of a query followed by its
      input record is that query's packet, and sending the header's declared
      size of it sends all of it. */
  lemma SendsDeclaredSize(f: Framing, dejavu: nat, inputType: nat, input: seq<byte>, packet: seq<byte>)
    requires f.Valid()
    requires f.headerLen + f.envelopeLen + |input| <= f.maxSize
    requires |packet| == f.headerLen + f.envelopeLen + |input|
    requires packet[..f.headerLen + f.envelopeLen]
          == f.writeHeader(|packet|, f.requestType, dejavu)
             + f.writeEnvelope(VLIQUID_CONTRACT_INDEX, inputType, |input|)
    requires packet[f.headerLen + f.envelopeLen..] == input
    ensures packet == QueryPacket(f, dejavu, inputType, input)
    ensures f.sizeOf(packet[..f.headerLen]) == |packet|
  {
    assert packet == packet[..f.headerLen + f.envelopeLen] + packet[f.headerLen + f.envelopeLen..];
    QueryPacketLayout(f, dejavu, inputType, input);
  }

  // ---------------------------------------------------------------------------
  // Response frames

  /** The header stored at cursor `p` (`(RequestResponseHeader*)(data + p)`). */
  function HeaderAt(f: Framing, data: seq<byte>, p: nat): (h: seq<byte>)
    requires p + f.headerLen <= |data|
    ensures |h| == f.headerLen
  {
    data[p..p + f.headerLen]
  }

  /** Every cursor the scan reaches from `p` while it is inside the buffer
      has a whole header after it, and that header declares a non-zero size.
      The scan relies on this without checking it: a header read with fewer
      than `headerLen` bytes left runs past the buffer, and a declared size of
      zero never moves the cursor again. */
  predicate WellFormedFrom(f: Framing, data: seq<byte>, p: nat)
    decreases |data| - p
  {
    p < |data| ==>
      && p + f.headerLen <= |data|
      && f.sizeOf(HeaderAt(f, data, p)) > 0
      && WellFormedFrom(f, data, p + f.sizeOf(HeaderAt(f, data, p)))
  }

  /** The cursors the scan visits from `p`: each is followed by a whole
      header, and each is further on than the one before. */
  function Frames(f: Framing, data: seq<byte>, p: nat): (ps: seq<nat>)
    requires WellFormedFrom(f, data, p)
    ensures forall i :: 0 <= i < |ps| ==> p <= ps[i] && ps[i] + f.headerLen <= |data|
    decreases |data| - p
  {
    if p >= |data| then []
    else [p] + Frames(f, data, p + f.sizeOf(HeaderAt(f, data, p)))
  }

  /** The "enough data" test as written: `recvByte - ptr - sizeof(header)`
      is computed in `size_t`, so with fewer than `headerLen` bytes left it
      wraps around to a value close to 2^64. */
  predicate EnoughDataAsWritten(remaining: nat, headerLen: nat, outLen: nat)
  {
    (remaining - headerLen) % SIZE_T_MODULUS >= outLen
  }

  /** The evidently intended test: a header and an output record both fit
      in what is left of the buffer. */
  predicate EnoughData(remaining: nat, headerLen: nat, outLen: nat)
  {
    remaining >= headerLen + outLen
  }

  /** With fewer than `headerLen` bytes left, the test as written passes
      although not even the header fits: the copy that follows reads past the
      end of the buffer. */
  lemma EnoughDataAsWrittenWraps(remaining: nat, headerLen: nat, outLen: nat)
    requires 0 < remaining < headerLen
    requires headerLen + outLen <= SIZE_T_MODULUS
    ensures EnoughDataAsWritten(remaining, headerLen, outLen)
    ensures !EnoughData(remaining, headerLen, outLen)
  {
    assert (remaining - headerLen) % SIZE_T_MODULUS == remaining - headerLen + SIZE_T_MODULUS;
  }

  /** One concrete buffer tail that shows it: 4 bytes left, an 8-byte
      header and an 8-byte output record. */
  lemma EnoughDataAsWrittenExample()
    ensures EnoughDataAsWritten(4, 8, 8) && !EnoughData(4, 8, 8)
  {
    EnoughDataAsWrittenWraps(4, 8, 8);
  }

  /** Whenever a whole header is left, which well-formedness guarantees at
      every visited cursor, the test as written and the intended test agree. */
  lemma EnoughDataAgrees(remaining: nat, headerLen: nat, outLen: nat)
    requires headerLen <= remaining < SIZE_T_MODULUS
    ensures EnoughDataAsWritten(remaining, headerLen, outLen) <==> EnoughData(remaining, headerLen, outLen)
  {
    assert (remaining - headerLen) % SIZE_T_MODULUS == remaining - headerLen;
  }

  /** The frame at `p` carries an output: its type is the response type and
      the buffer, counted from `p` to its end and not up to the frame's
      declared size, holds a header and an output record. */
  predicate Matches(f: Framing, data: seq<byte>, p: nat, outLen: nat)
    requires p + f.headerLen <= |data|
  {
    && f.typeOf(HeaderAt(f, data, p)) == f.responseType
    && EnoughData(|data| - p, f.headerLen, outLen)
  }

  /** The `outLen` bytes after the header at `p`. */
  function RecordAt(f: Framing, data: seq<byte>, p: nat, outLen: nat): (r: seq<byte>)
    requires p + f.headerLen + outLen <= |data|
    ensures |r| == outLen
  {
    data[p + f.headerLen..p + f.headerLen + outLen]
  }

  /** The record of the last cursor in `ps` whose frame matches, or `outLen`
      zero bytes when none does. */
  function LastMatch(f: Framing, data: seq<byte>, ps: seq<nat>, outLen: nat): (r: seq<byte>)
    requires forall i :: 0 <= i < |ps| ==> ps[i] + f.headerLen <= |data|
    ensures |r| == outLen
  {
    if ps == [] then Zeros(outLen)
    else
      var last := ps[|ps| - 1];
      if Matches(f, data, last, outLen) then RecordAt(f, data, last, outLen)
      else LastMatch(f, data, ps[..|ps| - 1], outLen)
  }

  /** One more visited frame: a matching frame replaces the result with its
      record, any other frame leaves the result as it was. */
  lemma LastMatchStep(f: Framing, data: seq<byte>, ps: seq<nat>, p: nat, outLen: nat)
    requires forall i :: 0 <= i < |ps| ==> ps[i] + f.headerLen <= |data|
    requires p + f.headerLen <= |data|
    ensures forall i :: 0 <= i < |ps + [p]| ==> (ps + [p])[i] + f.headerLen <= |data|
    ensures LastMatch(f, data, ps + [p], outLen)
         == if Matches(f, data, p, outLen) then RecordAt(f, data, p, outLen)
            else LastMatch(f, data, ps, outLen)
  {
    assert (ps + [p])[..|ps|] == ps;
  }

  /** Stepping over the frame at `p` keeps the rest of the walk well formed,
      and the walk from `p` is `p` followed by the walk from the next frame. */
  lemma FramesStep(f: Framing, data: seq<byte>, visited: seq<nat>, p: nat)
    requires WellFormedFrom(f, data, p) && p < |data|
    ensures WellFormedFrom(f, data, p + f.sizeOf(HeaderAt(f, data, p)))
    ensures visited + Frames(f, data, p)
         == (visited + [p]) + Frames(f, data, p + f.sizeOf(HeaderAt(f, data, p)))
  {
  }

  /** When no visited frame matches, the result is all zeros. */
  lemma {:induction false} NoMatchGivesZeros(f: Framing, data: seq<byte>, ps: seq<nat>, outLen: nat)
    requires forall i :: 0 <= i < |ps| ==> ps[i] + f.headerLen <= |data|
    requires forall i :: 0 <= i < |ps| ==> !Matches(f, data, ps[i], outLen)
    ensures LastMatch(f, data, ps, outLen) == Zeros(outLen)
  {
    if ps != [] {
      NoMatchGivesZeros(f, data, ps[..|ps| - 1], outLen);
    }
  }

  /** When the frame at index `k` matches and no later one does, the result
      is that frame's record: every match overwrites the earlier ones. */
  lemma {:induction false} LastMatchWins(f: Framing, data: seq<byte>, ps: seq<nat>, outLen: nat, k: nat)
    requires forall i :: 0 <= i < |ps| ==> ps[i] + f.headerLen <= |data|
    requires k < |ps| && Matches(f, data, ps[k], outLen)
    requires forall j :: k < j < |ps| ==> !Matches(f, data, ps[j], outLen)
    ensures ps[k] + f.headerLen + outLen <= |data|
    ensures LastMatch(f, data, ps, outLen) == RecordAt(f, data, ps[k], outLen)
  {
    if k < |ps| - 1 {
      LastMatchWins(f, data, ps[..|ps| - 1], outLen, k);
    }
  }

  /** The result is either all zeros or the record of some matching frame. */
  lemma {:induction false} LastMatchIsZerosOrARecord(f: Framing, data: seq<byte>, ps: seq<nat>, outLen: nat)
    requires forall i :: 0 <= i < |ps| ==> ps[i] + f.headerLen <= |data|
    ensures || LastMatch(f, data, ps, outLen) == Zeros(outLen)
            || exists k :: 0 <= k < |ps| && Matches(f, data, ps[k], outLen)
                           && LastMatch(f, data, ps, outLen) == RecordAt(f, data, ps[k], outLen)
  {
    if ps != [] && !Matches(f, data, ps[|ps| - 1], outLen) {
      var front := ps[..|ps| - 1];
      LastMatchIsZerosOrARecord(f, data, front, outLen);
      if LastMatch(f, data, front, outLen) != Zeros(outLen) {
        var k :| 0 <= k < |front| && Matches(f, data, front[k], outLen)
                 && LastMatch(f, data, front, outLen) == RecordAt(f, data, front[k], outLen);
        assert ps[k] == front[k];
      }
    } else if ps != [] {
      assert Matches(f, data, ps[|ps| - 1], outLen);
    }
  }

  /** What a scan of the whole buffer leaves in `result`. */
  function ScanResult(f: Framing, data: seq<byte>, outLen: nat): (r: seq<byte>)
    requires WellFormedFrom(f, data, 0)
    ensures |r| == outLen
  {
    LastMatch(f, data, Frames(f, data, 0), outLen)
  }

  /** What the scan leaves in `result` when it reaches cursor `p` holding
      `acc`: each further frame replaces it with the frame's record when the
      frame matches, and the cursor moves on by the frame's declared size. */
  function ScanFrom(f: Framing, data: seq<byte>, p: nat, outLen: nat, acc: seq<byte>): (r: seq<byte>)
    requires WellFormedFrom(f, data, p)
    decreases |data| - p
  {
    if p >= |data| then acc
    else
      ScanFrom(f, data, p + f.sizeOf(HeaderAt(f, data, p)), outLen,
               if Matches(f, data, p, outLen) then RecordAt(f, data, p, outLen) else acc)
  }

  /** Scanning on from `p` with the last match of the frames visited so far
      gives the last match of those frames followed by the rest of the walk. */
  lemma {:induction false} ScanFromIsLastMatch(f: Framing, data: seq<byte>, visited: seq<nat>, p: nat, outLen: nat)
    requires WellFormedFrom(f, data, p)
    requires forall i :: 0 <= i < |visited| ==> visited[i] + f.headerLen <= |data|
    ensures forall i :: 0 <= i < |visited + Frames(f, data, p)| ==> (visited + Frames(f, data, p))[i] + f.headerLen <= |data|
    ensures ScanFrom(f, data, p, outLen, LastMatch(f, data, visited, outLen))
         == LastMatch(f, data, visited + Frames(f, data, p), outLen)
    decreases |data| - p
  {
    if p >= |data| {
      assert visited + Frames(f, data, p) == visited;
    } else {
      var next := p + f.sizeOf(HeaderAt(f, data, p));
      FramesStep(f, data, visited, p);
      LastMatchStep(f, data, visited, p, outLen);
      assert ScanFrom(f, data, p, outLen, LastMatch(f, data, visited, outLen))
          == ScanFrom(f, data, next, outLen, LastMatch(f, data, visited + [p], outLen));
      ScanFromIsLastMatch(f, data, visited + [p], next, outLen);
    }
  }

  /** The scan from the start with an all-zero result is the specification. */
  lemma ScanFromStart(f: Framing, data: seq<byte>, outLen: nat)
    requires WellFormedFrom(f, data, 0)
    ensures ScanFrom(f, data, 0, outLen, Zeros(outLen)) == ScanResult(f, data, outLen)
  {
    ScanFromIsLastMatch(f, data, [], 0, outLen);
    assert [] + Frames(f, data, 0) == Frames(f, data, 0);
  }

  /** The scanning loop of both queries: starting from an all-zero `result`,
      visit frame after frame, copy the output record of every response frame
      that has room for one over `result`, and step over each frame by its
      declared size. */
  method ScanResponses(f: Framing, data: seq<byte>, outLen: nat) returns (result: seq<byte>)
    requires WellFormedFrom(f, data, 0)
    requires |data| < SIZE_T_MODULUS
    ensures result == ScanResult(f, data, outLen)
  {
    var recvByte := |data|;
    var ptr := 0;
    result := Zeros(outLen);
    ScanFromStart(f, data, outLen);
    while ptr < recvByte
      invariant WellFormedFrom(f, data, ptr)
      invariant ScanFrom(f, data, ptr, outLen, result) == ScanResult(f, data, outLen)
      decreases recvByte - ptr
    {
      var header := HeaderAt(f, data, ptr);
      EnoughDataAgrees(recvByte - ptr, f.headerLen, outLen);
      if f.typeOf(header) == f.responseType && (recvByte - ptr - f.headerLen) % SIZE_T_MODULUS >= outLen {
        result := RecordAt(f, data, ptr, outLen);
      }
      ptr := ptr + f.sizeOf(header);
    }
  }

  /** `r` is all zeros or the record of some matching frame of `data`. */
  ghost predicate ZerosOrRecord(f: Framing, data: seq<byte>, outLen: nat, r: seq<byte>)
  {
    || r == Zeros(outLen)
    || exists p: nat :: p + f.headerLen <= |data| && Matches(f, data, p, outLen)
                        && r == RecordAt(f, data, p, outLen)
  }

  /** The cursors a scan that checks its input visits from `p`: it stops at
      the end of the buffer, at a fragment shorter than a header, and at a
      header that declares size zero. */
  function CheckedFrames(f: Framing, data: seq<byte>, p: nat): (ps: seq<nat>)
    ensures forall i :: 0 <= i < |ps| ==> p <= ps[i] && ps[i] + f.headerLen <= |data|
    decreases |data| - p
  {
    if p >= |data| || p + f.headerLen > |data| || f.sizeOf(HeaderAt(f, data, p)) == 0 then []
    else [p] + CheckedFrames(f, data, p + f.sizeOf(HeaderAt(f, data, p)))
  }

  /** On a well-formed buffer the checks never stop the walk early. */
  lemma {:induction false} CheckedFramesAgree(f: Framing, data: seq<byte>, p: nat)
    requires WellFormedFrom(f, data, p)
    ensures CheckedFrames(f, data, p) == Frames(f, data, p)
    decreases |data| - p
  {
    if p < |data| {
      CheckedFramesAgree(f, data, p + f.sizeOf(HeaderAt(f, data, p)));
    }
  }

  /** One pass of the checked loop over the frame at `ptr`: the frame joins
      the visited ones, and the result becomes its record when it matches. */
  lemma CheckedStep(f: Framing, data: seq<byte>, visited: seq<nat>, ptr: nat, outLen: nat)
    requires ptr < |data| && ptr + f.headerLen <= |data| && f.sizeOf(HeaderAt(f, data, ptr)) > 0
    requires forall i :: 0 <= i < |visited| ==> visited[i] + f.headerLen <= |data|
    ensures visited + CheckedFrames(f, data, ptr)
         == (visited + [ptr]) + CheckedFrames(f, data, ptr + f.sizeOf(HeaderAt(f, data, ptr)))
    ensures forall i :: 0 <= i < |visited + [ptr]| ==> (visited + [ptr])[i] + f.headerLen <= |data|
    ensures LastMatch(f, data, visited + [ptr], outLen)
         == if Matches(f, data, ptr, outLen) then RecordAt(f, data, ptr, outLen)
            else LastMatch(f, data, visited, outLen)
  {
    LastMatchStep(f, data, visited, ptr, outLen);
  }

  /** The last match over any cursors is zeros or a matching frame's record. */
  lemma LastMatchZerosOrRecord(f: Framing, data: seq<byte>, ps: seq<nat>, outLen: nat)
    requires forall i :: 0 <= i < |ps| ==> ps[i] + f.headerLen <= |data|
    ensures ZerosOrRecord(f, data, outLen, LastMatch(f, data, ps, outLen))
  {
    LastMatchIsZerosOrARecord(f, data, ps, outLen);
    if LastMatch(f, data, ps, outLen) != Zeros(outLen) {
      var k :| 0 <= k < |ps| && Matches(f, data, ps[k], outLen)
               && LastMatch(f, data, ps, outLen) == RecordAt(f, data, ps[k], outLen);
      var p: nat := ps[k];
      assert p + f.headerLen <= |data| && Matches(f, data, p, outLen);
    }
  }

  /** What the checked scan leaves in `result` when it reaches cursor `p`
      holding `acc`: like `ScanFrom`, but it stops where `CheckedFrames` stops. */
  function CheckedScanFrom(f: Framing, data: seq<byte>, p: nat, outLen: nat, acc: seq<byte>): seq<byte>
    decreases |data| - p
  {
    if p >= |data| || p + f.headerLen > |data| || f.sizeOf(HeaderAt(f, data, p)) == 0 then acc
    else
      CheckedScanFrom(f, data, p + f.sizeOf(HeaderAt(f, data, p)), outLen,
                      if Matches(f, data, p, outLen) then RecordAt(f, data, p, outLen) else acc)
  }

  /** Where the checked walk stops, the checked scan keeps what it holds. */
  lemma CheckedScanStops(f: Framing, data: seq<byte>, p: nat, outLen: nat, acc: seq<byte>)
    requires p >= |data| || p + f.headerLen > |data| || f.sizeOf(HeaderAt(f, data, p)) == 0
    ensures CheckedScanFrom(f, data, p, outLen, acc) == acc
  {
  }

  /** Where the checked walk goes on, the checked scan takes the record of a
      matching frame and moves on by the frame's declared size. */
  lemma CheckedScanStep(f: Framing, data: seq<byte>, p: nat, outLen: nat, acc: seq<byte>)
    requires p + f.headerLen <= |data| && p < |data| && f.sizeOf(HeaderAt(f, data, p)) > 0
    ensures CheckedScanFrom(f, data, p, outLen, acc)
         == CheckedScanFrom(f, data, p + f.sizeOf(HeaderAt(f, data, p)), outLen,
                            if Matches(f, data, p, outLen) then RecordAt(f, data, p, outLen) else acc)
  {
  }

  /** Scanning on with checks from `p`, holding the last match of the frames
      visited so far, gives the last match of those frames followed by the
      cursors the checked walk visits from `p`. */
  lemma {:induction false} CheckedScanFromIsLastMatch(f: Framing, data: seq<byte>, visited: seq<nat>, p: nat, outLen: nat)
    requires forall i :: 0 <= i < |visited| ==> visited[i] + f.headerLen <= |data|
    ensures forall i :: 0 <= i < |visited + CheckedFrames(f, data, p)| ==> (visited + CheckedFrames(f, data, p))[i] + f.headerLen <= |data|
    ensures CheckedScanFrom(f, data, p, outLen, LastMatch(f, data, visited, outLen))
         == LastMatch(f, data, visited + CheckedFrames(f, data, p), outLen)
    decreases |data| - p
  {
    if p >= |data| || p + f.headerLen > |data| || f.sizeOf(HeaderAt(f, data, p)) == 0 {
      assert visited + CheckedFrames(f, data, p) == visited;
    } else {
      var next := p + f.sizeOf(HeaderAt(f, data, p));
      CheckedStep(f, data, visited, p, outLen);
      assert CheckedScanFrom(f, data, p, outLen, LastMatch(f, data, visited, outLen))
          == CheckedScanFrom(f, data, next, outLen, LastMatch(f, data, visited + [p], outLen));
      CheckedScanFromIsLastMatch(f, data, visited + [p], next, outLen);
    }
  }

  /** The last match over the checked walk is zeros or the record of a
      matching frame, and on a well-formed buffer it is the scan's result. */
  lemma CheckedResult(f: Framing, data: seq<byte>, outLen: nat)
    ensures ZerosOrRecord(f, data, outLen, LastMatch(f, data, CheckedFrames(f, data, 0), outLen))
    ensures WellFormedFrom(f, data, 0) ==> LastMatch(f, data, CheckedFrames(f, data, 0), outLen) == ScanResult(f, data, outLen)
  {
    LastMatchZerosOrRecord(f, data, CheckedFrames(f, data, 0), outLen);
    if WellFormedFrom(f, data, 0) {
      CheckedFramesAgree(f, data, 0);
    }
  }

  /** The scanning loop with the checks the buffer needs: it stops at a
      fragment shorter than a header or at a header that declares size zero,
      and it tests for room with the intended test. It ends on every buffer
      and leaves the record of the last matching frame among those it visits
      before stopping, or zeros; on a well-formed buffer that is what the loop
      as written leaves. */
  method ScanResponsesChecked(f: Framing, data: seq<byte>, outLen: nat) returns (result: seq<byte>)
    ensures result == LastMatch(f, data, CheckedFrames(f, data, 0), outLen)
    ensures |result| == outLen
    ensures ZerosOrRecord(f, data, outLen, result)
    ensures WellFormedFrom(f, data, 0) ==> result == ScanResult(f, data, outLen)
  {
    var recvByte := |data|;
    var ptr := 0;
    result := Zeros(outLen);
    CheckedScanFromIsLastMatch(f, data, [], 0, outLen);
    assert [] + CheckedFrames(f, data, 0) == CheckedFrames(f, data, 0);
    ghost var last := LastMatch(f, data, CheckedFrames(f, data, 0), outLen);
    while ptr < recvByte
      invariant CheckedScanFrom(f, data, ptr, outLen, result) == last
      decreases recvByte - ptr
    {
      if recvByte - ptr < f.headerLen {
        CheckedScanStops(f, data, ptr, outLen, result);
        break;
      }
      var header := HeaderAt(f, data, ptr);
      var size := f.sizeOf(header);
      if size == 0 {
        CheckedScanStops(f, data, ptr, outLen, result);
        break;
      }
      CheckedScanStep(f, data, ptr, outLen, result);
      if f.typeOf(header) == f.responseType && EnoughData(recvByte - ptr, f.headerLen, outLen) {
        result := RecordAt(f, data, ptr, outLen);
      }
      ptr := ptr + size;
    }
    if ptr >= recvByte {
      CheckedScanStops(f, data, ptr, outLen, result);
    }
    CheckedResult(f, data, outLen);
  }

  // ---------------------------------------------------------------------------
  // The two queries

  /** `vliquidBalanceOfMicroToken`: sends the balance query and reads the
      balance from the last response frame with room for an output record,
      parsing it as a `ConvertToMicroToken_output`; zero when there is none. */
  method BalanceOfMicroToken(
    f: Framing, keyOf: seq<byte> -> Key, dejavu: nat,
    assetName: seq<byte>, issuer: seq<byte>, owner: seq<byte>, received: seq<byte>)
    returns (sent: seq<byte>, balance: u64)
    requires f.Valid()
    requires f.headerLen + f.envelopeLen + BalanceOfMicroTokenInput.Size <= f.maxSize
    requires |assetName| >= 8 && |owner| >= 32
    requires WellFormedFrom(f, received, 0) && |received| < SIZE_T_MODULUS
    ensures sent == QueryPacket(f, dejavu, VLIQUID_BALANCE_OF_MICRO_TOKEN,
                                BalanceOfMicroTokenInput(keyOf(issuer), U64Of(assetName[..8]), owner[..32]).Encode())
    ensures balance == U64Of(ScanResult(f, received, ConvertToMicroTokenOutput.Size))
    ensures (forall p | p in Frames(f, received, 0) :: !Matches(f, received, p, ConvertToMicroTokenOutput.Size))
            ==> balance == 0
  {
    sent := BuildBalanceOfMicroTokenQuery(f, keyOf, dejavu, assetName, issuer, owner);
    var output := ScanResponses(f, received, ConvertToMicroTokenOutput.Size);
    balance := ConvertToMicroTokenOutput.Decode(output).microTokenAmount;
    U64BytesOf(output);
    ghost var ps := Frames(f, received, 0);
    if forall p | p in ps :: !Matches(f, received, p, ConvertToMicroTokenOutput.Size) {
      NoMatchGivesZeros(f, received, ps, ConvertToMicroTokenOutput.Size);
      U64OfZeros();
    }
  }

  /** `vliquidMicroTokenAllowance`: sends the allowance query and reads the
      allowance from the last response frame with room for an output record;
      zero when there is none. */
  method MicroTokenAllowance(
    f: Framing, keyOf: seq<byte> -> Key, dejavu: nat,
    assetName: seq<byte>, issuer: seq<byte>, recipient: seq<byte>, spender: seq<byte>, received: seq<byte>)
    returns (sent: seq<byte>, allowance: u64)
    requires f.Valid()
    requires f.headerLen + f.envelopeLen + MicroTokenAllowanceInput.Size <= f.maxSize
    requires |assetName| >= 8
    requires WellFormedFrom(f, received, 0) && |received| < SIZE_T_MODULUS
    ensures sent == QueryPacket(f, dejavu, VLIQUID_MICRO_TOKEN_ALLOWANCE,
                                MicroTokenAllowanceInput(keyOf(issuer), U64Of(assetName[..8]),
                                                         keyOf(recipient), keyOf(spender)).Encode())
    ensures allowance == U64Of(ScanResult(f, received, MicroTokenAllowanceOutput.Size))
    ensures (forall p | p in Frames(f, received, 0) :: !Matches(f, received, p, MicroTokenAllowanceOutput.Size))
            ==> allowance == 0
  {
    sent := BuildMicroTokenAllowanceQuery(f, keyOf, dejavu, assetName, issuer, recipient, spender);
    var output := ScanResponses(f, received, MicroTokenAllowanceOutput.Size);
    allowance := MicroTokenAllowanceOutput.Decode(output).balance;
    U64BytesOf(output);
    ghost var ps := Frames(f, received, 0);
    if forall p | p in ps :: !Matches(f, received, p, MicroTokenAllowanceOutput.Size) {
      NoMatchGivesZeros(f, received, ps, MicroTokenAllowanceOutput.Size);
      U64OfZeros();
    }
  }

  // ---------------------------------------------------------------------------
  // A header of size zero

  /** The cursor after `n` passes of the loop body from `p`, for as long as a
      whole header is there to be read. */
  function CursorAfter(f: Framing, data: seq<byte>, p: nat, n: nat): (q: nat)
    ensures p <= q
    decreases n
  {
    if n == 0 || p >= |data| || p + f.headerLen > |data| then p
    else CursorAfter(f, data, p + f.sizeOf(HeaderAt(f, data, p)), n - 1)
  }

  /** A header that declares size zero stops the cursor: after any number of
      passes it is still at the same frame, inside the buffer, so the loop
      as written never ends. Such a buffer is not well formed. */
  lemma {:induction false} ZeroSizeStalls(f: Framing, data: seq<byte>, p: nat, n: nat)
    requires p < |data| && p + f.headerLen <= |data|
    requires f.sizeOf(HeaderAt(f, data, p)) == 0
    ensures CursorAfter(f, data, p, n) == p < |data|
    ensures !WellFormedFrom(f, data, p)
  {
    if n > 0 {
      ZeroSizeStalls(f, data, p, n - 1);
    }
  }
}
