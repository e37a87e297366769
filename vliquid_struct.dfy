/** The fixed-layout input and output records exchanged with the VLIQUID
    contract, with their byte images as the x86-64 compiler lays them out:
    fields in declaration order, every field at an offset that is a multiple of
    its natural alignment (8 for 64-bit integers and for records containing
    them, 2 for 16-bit integers, 1 for bytes, booleans and byte arrays), and the
    whole record padded to a multiple of its largest alignment. Padding is
    written as zero bytes and ignored when reading. */
module VliquidStruct {
  import opened Bytes

  const MAX_TOKENS: nat := 5

  /** How a `bool` is stored; any non-zero byte reads back as true. */
  function BoolByte(x: bool): (b: byte)
    ensures (b != 0) == x
  {
    if x then 1 else 0
  }

  /** The `Token tokens[MAX_TOKENS]` array of `CreateLiquid_input`. */
  type TokenSlots = s: seq<Token> | |s| == MAX_TOKENS
    witness seq(MAX_TOKENS, _ => Token(TokenInfo(Zeros(32), 0, false), 0, 0))

  /** The tokens stored one after another, each in its 64-byte slot. */
  function EncodeTokens(ts: seq<Token>): (b: seq<byte>)
    ensures |b| == Token.Size * |ts|
    ensures forall i :: 0 <= i < |ts| ==> b[Token.Size * i..Token.Size * (i + 1)] == ts[i].Encode()
  {
    if ts == [] then [] else ts[0].Encode() + EncodeTokens(ts[1..])
  }

  /** The `MAX_TOKENS` tokens read from the consecutive 64-byte slots at the
      front of `b`. */
  function DecodeTokens(b: seq<byte>): (ts: TokenSlots)
    requires |b| >= Token.Size * MAX_TOKENS
    ensures forall i :: 0 <= i < MAX_TOKENS ==> ts[i] == Token.Decode(b[Token.Size * i..Token.Size * (i + 1)])
  {
    seq(MAX_TOKENS, i requires 0 <= i < MAX_TOKENS => Token.Decode(b[Token.Size * i..Token.Size * (i + 1)]))
  }

  /** Reading the slots back yields the tokens stored in them, whatever bytes
      follow the slots. */
  lemma TokensRoundTrip(ts: TokenSlots, rest: seq<byte>)
    ensures DecodeTokens(EncodeTokens(ts) + rest) == ts
  {
    var slots := EncodeTokens(ts);
    var decoded := DecodeTokens(slots + rest);
    forall i | 0 <= i < MAX_TOKENS
      ensures decoded[i] == ts[i]
    {
      SliceOfAppendLeft(slots, rest, Token.Size * i, Token.Size * (i + 1));
    }
  }

  /** `ConvertToMicroToken_output`, `BalanceOfMicroToken_output` and
      `MicroTokenAllowance_output` have the same layout: the same eight bytes
      read as each of them give the same number, and the same number is
      written as the same eight bytes. */
  lemma SingleU64OutputsAgree(b: seq<byte>, x: u64)
    requires |b| == 8
    ensures ConvertToMicroTokenOutput.Decode(b).microTokenAmount == BalanceOfMicroTokenOutput.Decode(b).balance
    ensures ConvertToMicroTokenOutput.Decode(b).microTokenAmount == MicroTokenAllowanceOutput.Decode(b).balance
    ensures ConvertToMicroTokenOutput(x).Encode() == BalanceOfMicroTokenOutput(x).Encode()
         == MicroTokenAllowanceOutput(x).Encode()
  {
    U64BytesOf(b);
  }

  /** `ConvertToMicroToken_input`: issuer @0, assetName @32, expensiveTokenAmount @40; 48 bytes. */
  datatype ConvertToMicroTokenInput = ConvertToMicroTokenInput(issuer: Key, assetName: u64, expensiveTokenAmount: i64)
  {
    static const Size: nat := 48

    function Encode(): (b: seq<byte>)
      ensures |b| == Size
      ensures b[0..32] == issuer
      ensures b[32..40] == U64Bytes(assetName)
      ensures b[40..48] == I64Bytes(expensiveTokenAmount)
      ensures Decode(b) == this
    {
      var b := issuer + U64Bytes(assetName) + I64Bytes(expensiveTokenAmount);
      assert b[0..32] == issuer;
      assert b[32..40] == U64Bytes(assetName);
      assert b[40..48] == I64Bytes(expensiveTokenAmount);
      b
    }

    static function Decode(b: seq<byte>): (r: ConvertToMicroTokenInput)
      requires |b| == Size
      ensures r.issuer == b[0..32]
      ensures U64Bytes(r.assetName) == b[32..40]
      ensures I64Bytes(r.expensiveTokenAmount) == b[40..48]
    {
      U64BytesOf(b[32..40]);
      I64BytesOf(b[40..48]);
      ConvertToMicroTokenInput(b[0..32], U64Of(b[32..40]), I64Of(b[40..48]))
    }
  }

  /** `ConvertToMicroToken_output`: microTokenAmount @0; 8 bytes. */
  datatype ConvertToMicroTokenOutput = ConvertToMicroTokenOutput(microTokenAmount: u64)
  {
    static const Size: nat := 8

    function Encode(): (b: seq<byte>)
      ensures |b| == Size
      ensures Decode(b) == this
    {
      U64Bytes(microTokenAmount)
    }

    static function Decode(b: seq<byte>): (r: ConvertToMicroTokenOutput)
      requires |b| == Size
      ensures U64Bytes(r.microTokenAmount) == b
    {
      U64BytesOf(b);
      ConvertToMicroTokenOutput(U64Of(b))
    }
  }

  /** `ConvertToExpensiveToken_input`: issuer @0, assetName @32, microTokenAmount @40; 48 bytes. */
  datatype ConvertToExpensiveTokenInput = ConvertToExpensiveTokenInput(issuer: Key, assetName: u64, microTokenAmount: u64)
  {
    static const Size: nat := 48

    function Encode(): (b: seq<byte>)
      ensures |b| == Size
      ensures b[0..32] == issuer
      ensures b[32..40] == U64Bytes(assetName)
      ensures b[40..48] == U64Bytes(microTokenAmount)
      ensures Decode(b) == this
    {
      var b := issuer + U64Bytes(assetName) + U64Bytes(microTokenAmount);
      assert b[0..32] == issuer;
      assert b[32..40] == U64Bytes(assetName);
      assert b[40..48] == U64Bytes(microTokenAmount);
      b
    }

    static function Decode(b: seq<byte>): (r: ConvertToExpensiveTokenInput)
      requires |b| == Size
      ensures r.issuer == b[0..32]
      ensures U64Bytes(r.assetName) == b[32..40]
      ensures U64Bytes(r.microTokenAmount) == b[40..48]
    {
      U64BytesOf(b[32..40]);
      U64BytesOf(b[40..48]);
      ConvertToExpensiveTokenInput(b[0..32], U64Of(b[32..40]), U64Of(b[40..48]))
    }
  }

  /** `ConvertToExpensiveToken_output`: expensiveTokenAmount @0; 8 bytes. */
  datatype ConvertToExpensiveTokenOutput = ConvertToExpensiveTokenOutput(expensiveTokenAmount: i64)
  {
    static const Size: nat := 8

    function Encode(): (b: seq<byte>)
      ensures |b| == Size
      ensures Decode(b) == this
    {
      I64Bytes(expensiveTokenAmount)
    }

    static function Decode(b: seq<byte>): (r: ConvertToExpensiveTokenOutput)
      requires |b| == Size
      ensures I64Bytes(r.expensiveTokenAmount) == b
    {
      I64BytesOf(b);
      ConvertToExpensiveTokenOutput(I64Of(b))
    }
  }

  /** `TransferMicroToken_input`: issuer @0, assetName @32, recipient @40, microTokenAmount @72; 80 bytes. */
  datatype TransferMicroTokenInput = TransferMicroTokenInput(issuer: Key, assetName: u64, recipient: Key, microTokenAmount: u64)
  {
    static const Size: nat := 80

    function Encode(): (b: seq<byte>)
      ensures |b| == Size
      ensures b[0..32] == issuer
      ensures b[32..40] == U64Bytes(assetName)
      ensures b[40..72] == recipient
      ensures b[72..80] == U64Bytes(microTokenAmount)
      ensures Decode(b) == this
    {
      var b := issuer + U64Bytes(assetName) + recipient + U64Bytes(microTokenAmount);
      assert b[0..32] == issuer;
      assert b[32..40] == U64Bytes(assetName);
      assert b[40..72] == recipient;
      assert b[72..80] == U64Bytes(microTokenAmount);
      b
    }

    static function Decode(b: seq<byte>): (r: TransferMicroTokenInput)
      requires |b| == Size
      ensures r.issuer == b[0..32]
      ensures U64Bytes(r.assetName) == b[32..40]
      ensures r.recipient == b[40..72]
      ensures U64Bytes(r.microTokenAmount) == b[72..80]
    {
      U64BytesOf(b[32..40]);
      U64BytesOf(b[72..80]);
      TransferMicroTokenInput(b[0..32], U64Of(b[32..40]), b[40..72], U64Of(b[72..80]))
    }
  }

  /** `TransferMicroToken_output`: transferredMicroTokenAmount @0; 8 bytes. */
  datatype TransferMicroTokenOutput = TransferMicroTokenOutput(transferredMicroTokenAmount: u64)
  {
    static const Size: nat := 8

    function Encode(): (b: seq<byte>)
      ensures |b| == Size
      ensures Decode(b) == this
    {
      U64Bytes(transferredMicroTokenAmount)
    }

    static function Decode(b: seq<byte>): (r: TransferMicroTokenOutput)
      requires |b| == Size
      ensures U64Bytes(r.transferredMicroTokenAmount) == b
    {
      U64BytesOf(b);
      TransferMicroTokenOutput(U64Of(b))
    }
  }

  /** `MicroTokenAllowance_input`: issuer @0, assetName @32, recipient @40, spender @72; 104 bytes. */
  datatype MicroTokenAllowanceInput = MicroTokenAllowanceInput(issuer: Key, assetName: u64, recipient: Key, spender: Key)
  {
    static const Size: nat := 104

    function Encode(): (b: seq<byte>)
      ensures |b| == Size
      ensures b[0..32] == issuer
      ensures b[32..40] == U64Bytes(assetName)
      ensures b[40..72] == recipient
      ensures b[72..104] == spender
      ensures Decode(b) == this
    {
      var b := issuer + U64Bytes(assetName) + recipient + spender;
      assert b[0..32] == issuer;
      assert b[32..40] == U64Bytes(assetName);
      assert b[40..72] == recipient;
      assert b[72..104] == spender;
      b
    }

    static function Decode(b: seq<byte>): (r: MicroTokenAllowanceInput)
      requires |b| == Size
      ensures r.issuer == b[0..32]
      ensures U64Bytes(r.assetName) == b[32..40]
      ensures r.recipient == b[40..72]
      ensures r.spender == b[72..104]
    {
      U64BytesOf(b[32..40]);
      MicroTokenAllowanceInput(b[0..32], U64Of(b[32..40]), b[40..72], b[72..104])
    }
  }

  /** `MicroTokenAllowance_output`: balance @0; 8 bytes. */
  datatype MicroTokenAllowanceOutput = MicroTokenAllowanceOutput(balance: u64)
  {
    static const Size: nat := 8

    function Encode(): (b: seq<byte>)
      ensures |b| == Size
      ensures Decode(b) == this
    {
      U64Bytes(balance)
    }

    static function Decode(b: seq<byte>): (r: MicroTokenAllowanceOutput)
      requires |b| == Size
      ensures U64Bytes(r.balance) == b
    {
      U64BytesOf(b);
      MicroTokenAllowanceOutput(U64Of(b))
    }
  }

  /** `BalanceOfMicroToken_input`: issuer @0, assetName @32, owner @40; 72 bytes. */
  datatype BalanceOfMicroTokenInput = BalanceOfMicroTokenInput(issuer: Key, assetName: u64, owner: Key)
  {
    static const Size: nat := 72

    function Encode(): (b: seq<byte>)
      ensures |b| == Size
      ensures b[0..32] == issuer
      ensures b[32..40] == U64Bytes(assetName)
      ensures b[40..72] == owner
      ensures Decode(b) == this
    {
      var b := issuer + U64Bytes(assetName) + owner;
      assert b[0..32] == issuer;
      assert b[32..40] == U64Bytes(assetName);
      assert b[40..72] == owner;
      b
    }

    static function Decode(b: seq<byte>): (r: BalanceOfMicroTokenInput)
      requires |b| == Size
      ensures r.issuer == b[0..32]
      ensures U64Bytes(r.assetName) == b[32..40]
      ensures r.owner == b[40..72]
    {
      U64BytesOf(b[32..40]);
      BalanceOfMicroTokenInput(b[0..32], U64Of(b[32..40]), b[40..72])
    }
  }

  /** `BalanceOfMicroToken_output`: balance @0; 8 bytes. */
  datatype BalanceOfMicroTokenOutput = BalanceOfMicroTokenOutput(balance: u64)
  {
    static const Size: nat := 8

    function Encode(): (b: seq<byte>)
      ensures |b| == Size
      ensures Decode(b) == this
    {
      U64Bytes(balance)
    }

    static function Decode(b: seq<byte>): (r: BalanceOfMicroTokenOutput)
      requires |b| == Size
      ensures U64Bytes(r.balance) == b
    {
      U64BytesOf(b);
      BalanceOfMicroTokenOutput(U64Of(b))
    }
  }

  /** `ApproveMicroToken_input`: issuer @0, recipient @32, assetName @64, microTokenAmount @72; 80 bytes. */
  datatype ApproveMicroTokenInput = ApproveMicroTokenInput(issuer: Key, recipient: Key, assetName: u64, microTokenAmount: u64)
  {
    static const Size: nat := 80

    function Encode(): (b: seq<byte>)
      ensures |b| == Size
      ensures b[0..32] == issuer
      ensures b[32..64] == recipient
      ensures b[64..72] == U64Bytes(assetName)
      ensures b[72..80] == U64Bytes(microTokenAmount)
      ensures Decode(b) == this
    {
      var b := issuer + recipient + U64Bytes(assetName) + U64Bytes(microTokenAmount);
      assert b[0..32] == issuer;
      assert b[32..64] == recipient;
      assert b[64..72] == U64Bytes(assetName);
      assert b[72..80] == U64Bytes(microTokenAmount);
      b
    }

    static function Decode(b: seq<byte>): (r: ApproveMicroTokenInput)
      requires |b| == Size
      ensures r.issuer == b[0..32]
      ensures r.recipient == b[32..64]
      ensures U64Bytes(r.assetName) == b[64..72]
      ensures U64Bytes(r.microTokenAmount) == b[72..80]
    {
      U64BytesOf(b[64..72]);
      U64BytesOf(b[72..80]);
      ApproveMicroTokenInput(b[0..32], b[32..64], U64Of(b[64..72]), U64Of(b[72..80]))
    }
  }

  /** `ApproveMicroToken_output`: approvedMicroTokenAmount @0; 8 bytes. */
  datatype ApproveMicroTokenOutput = ApproveMicroTokenOutput(approvedMicroTokenAmount: u64)
  {
    static const Size: nat := 8

    function Encode(): (b: seq<byte>)
      ensures |b| == Size
      ensures Decode(b) == this
    {
      U64Bytes(approvedMicroTokenAmount)
    }

    static function Decode(b: seq<byte>): (r: ApproveMicroTokenOutput)
      requires |b| == Size
      ensures U64Bytes(r.approvedMicroTokenAmount) == b
    {
      U64BytesOf(b);
      ApproveMicroTokenOutput(U64Of(b))
    }
  }

  /** `TransferFromMicroToken_input`: issuer @0, assetName @32, spender @40, recipient @72, microTokenAmount @104; 112 bytes. */
  datatype TransferFromMicroTokenInput = TransferFromMicroTokenInput(issuer: Key, assetName: u64, spender: Key, recipient: Key, microTokenAmount: u64)
  {
    static const Size: nat := 112

    function Encode(): (b: seq<byte>)
      ensures |b| == Size
      ensures b[0..32] == issuer
      ensures b[32..40] == U64Bytes(assetName)
      ensures b[40..72] == spender
      ensures b[72..104] == recipient
      ensures b[104..112] == U64Bytes(microTokenAmount)
      ensures Decode(b) == this
    {
      var b := issuer + U64Bytes(assetName) + spender + recipient + U64Bytes(microTokenAmount);
      assert b[0..32] == issuer;
      assert b[32..40] == U64Bytes(assetName);
      assert b[40..72] == spender;
      assert b[72..104] == recipient;
      assert b[104..112] == U64Bytes(microTokenAmount);
      b
    }

    static function Decode(b: seq<byte>): (r: TransferFromMicroTokenInput)
      requires |b| == Size
      ensures r.issuer == b[0..32]
      ensures U64Bytes(r.assetName) == b[32..40]
      ensures r.spender == b[40..72]
      ensures r.recipient == b[72..104]
      ensures U64Bytes(r.microTokenAmount) == b[104..112]
    {
      U64BytesOf(b[32..40]);
      U64BytesOf(b[104..112]);
      TransferFromMicroTokenInput(b[0..32], U64Of(b[32..40]), b[40..72], b[72..104], U64Of(b[104..112]))
    }
  }

  /** `TransferFromMicroToken_output`: transferredMicroTokenAmount @0; 8 bytes. */
  datatype TransferFromMicroTokenOutput = TransferFromMicroTokenOutput(transferredMicroTokenAmount: u64)
  {
    static const Size: nat := 8

    function Encode(): (b: seq<byte>)
      ensures |b| == Size
      ensures Decode(b) == this
    {
      U64Bytes(transferredMicroTokenAmount)
    }

    static function Decode(b: seq<byte>): (r: TransferFromMicroTokenOutput)
      requires |b| == Size
      ensures U64Bytes(r.transferredMicroTokenAmount) == b
    {
      U64BytesOf(b);
      TransferFromMicroTokenOutput(U64Of(b))
    }
  }

  /** `TokenInfo`: issuer @0, assetName @32, isMicroToken @40, padding @41..48; 48 bytes. */
  datatype TokenInfo = TokenInfo(issuer: Key, assetName: u64, isMicroToken: bool)
  {
    static const Size: nat := 48

    function Encode(): (b: seq<byte>)
      ensures |b| == Size
      ensures b[0..32] == issuer
      ensures b[32..40] == U64Bytes(assetName)
      ensures b[40] == BoolByte(isMicroToken)
      ensures b[41..48] == Zeros(7)
      ensures Decode(b) == this
    {
      var b := issuer + U64Bytes(assetName) + [BoolByte(isMicroToken)] + Zeros(7);
      assert b[0..32] == issuer;
      assert b[32..40] == U64Bytes(assetName);
      assert b[40] == BoolByte(isMicroToken);
      assert b[41..48] == Zeros(7);
      b
    }

    static function Decode(b: seq<byte>): (r: TokenInfo)
      requires |b| == Size
      ensures r.issuer == b[0..32]
      ensures U64Bytes(r.assetName) == b[32..40]
      ensures r.isMicroToken == (b[40] != 0)
    {
      U64BytesOf(b[32..40]);
      TokenInfo(b[0..32], U64Of(b[32..40]), b[40] != 0)
    }
  }

  /** `Token`: tokenInfo @0, balance @48, weight @56, padding @57..64; 64 bytes. */
  datatype Token = Token(tokenInfo: TokenInfo, balance: u64, weight: u8)
  {
    static const Size: nat := 64

    function Encode(): (b: seq<byte>)
      ensures |b| == Size
      ensures b[0..48] == tokenInfo.Encode()
      ensures b[48..56] == U64Bytes(balance)
      ensures b[56] == weight
      ensures b[57..64] == Zeros(7)
      ensures Decode(b) == this
    {
      var b := tokenInfo.Encode() + U64Bytes(balance) + [weight] + Zeros(7);
      assert b[0..48] == tokenInfo.Encode();
      assert b[48..56] == U64Bytes(balance);
      assert b[56] == weight;
      assert b[57..64] == Zeros(7);
      b
    }

    static function Decode(b: seq<byte>): (r: Token)
      requires |b| == Size
      ensures r.tokenInfo == TokenInfo.Decode(b[0..48])
      ensures U64Bytes(r.balance) == b[48..56]
      ensures r.weight == b[56]
    {
      U64BytesOf(b[48..56]);
      Token(TokenInfo.Decode(b[0..48]), U64Of(b[48..56]), b[56])
    }
  }

  /** The fields of `CreateLiquid_input` after its token slots, counted from
      offset 320: tokenLength @0, padding @1..8, quShares @8, quWeight @16,
      padding @17..18, initialLiquid @18, feeRate @20, padding @21..24. */
  /** Where the slices of a 24-byte run made of three 8-byte chunks lie. */
  lemma ChunksLayout(a: seq<byte>, q: seq<byte>, c: seq<byte>)
    requires |a| == 8 && |q| == 8 && |c| == 8
    ensures (a + q + c)[1..8] == a[1..8] && (a + q + c)[8..16] == q
    ensures (a + q + c)[17..18] == c[1..2] && (a + q + c)[18..20] == c[2..4]
    ensures (a + q + c)[21..24] == c[5..8]
  {
    SliceOfAppendLeft(a + q, c, 1, 8);
    SliceOfAppendLeft(a, q, 1, 8);
    SliceOfAppendLeft(a + q, c, 8, 16);
    SliceOfAppendRight(a, q, 8, 16);
    assert q[0..8] == q;
    SliceOfAppendRight(a + q, c, 17, 18);
    SliceOfAppendRight(a + q, c, 18, 20);
    SliceOfAppendRight(a + q, c, 21, 24);
  }

  /** The layout of a `CreateLiquid_input` tail built from its field bytes. */
  function TailOf(tokenLength: byte, q: seq<byte>, quWeight: byte, w: seq<byte>, feeRate: byte): seq<byte>
    requires |q| == 8 && |w| == 2
  {
    [tokenLength, 0, 0, 0, 0, 0, 0, 0] + q + [quWeight, 0, w[0], w[1], feeRate, 0, 0, 0]
  }

  /** Every field of a tail built by `TailOf` sits at its offset. */
  lemma TailOfLayout(tokenLength: byte, q: seq<byte>, quWeight: byte, w: seq<byte>, feeRate: byte)
    requires |q| == 8 && |w| == 2
    ensures var t := TailOf(tokenLength, q, quWeight, w, feeRate);
      |t| == 24 && t[0] == tokenLength && t[1..8] == Zeros(7) && t[8..16] == q &&
      t[16] == quWeight && t[17..18] == Zeros(1) && t[18..20] == w &&
      t[20] == feeRate && t[21..24] == Zeros(3)
  {
    var head := [tokenLength, 0, 0, 0, 0, 0, 0, 0];
    var back := [quWeight, 0, w[0], w[1], feeRate, 0, 0, 0];
    ZerosSlice(head, 1, 8);
    ZerosSlice(back, 1, 2);
    SliceIs(back, 2, w);
    ZerosSlice(back, 5, 8);
    ChunksLayout(head, q, back);
  }

  /** The fields of `CreateLiquid_input` after its token slots, counted from
      offset 320: tokenLength @0, padding @1..8, quShares @8, quWeight @16,
      padding @17..18, initialLiquid @18, feeRate @20, padding @21..24. */
  function CreateLiquidTail(tokenLength: u8, quShares: u64, quWeight: u8, initialLiquid: u16, feeRate: u8): (t: seq<byte>)
    ensures |t| == 24
    ensures t[0] == tokenLength && t[1..8] == Zeros(7) && t[8..16] == U64Bytes(quShares)
    ensures t[16] == quWeight && t[17..18] == Zeros(1) && t[18..20] == U16Bytes(initialLiquid)
    ensures t[20] == feeRate && t[21..24] == Zeros(3)
  {
    var q := U64Bytes(quShares);
    var w := U16Bytes(initialLiquid);
    TailOfLayout(tokenLength, q, quWeight, w, feeRate);
    TailOf(tokenLength, q, quWeight, w, feeRate)
  }

  /** `CreateLiquid_input`: tokens @0, tokenLength @320, padding @321..328, quShares @328, quWeight @336, padding @337..338, initialLiquid @338, feeRate @340, padding @341..344; 344 bytes. */
  datatype CreateLiquidInput = CreateLiquidInput(tokens: TokenSlots, tokenLength: u8, quShares: u64, quWeight: u8, initialLiquid: u16, feeRate: u8)
  {
    static const Size: nat := 344

    function Encode(): (b: seq<byte>)
      ensures |b| == Size
      ensures b[0..320] == EncodeTokens(tokens)
      ensures b[320] == tokenLength
      ensures b[321..328] == Zeros(7)
      ensures b[328..336] == U64Bytes(quShares)
      ensures b[336] == quWeight
      ensures b[337..338] == Zeros(1)
      ensures b[338..340] == U16Bytes(initialLiquid)
      ensures b[340] == feeRate
      ensures b[341..344] == Zeros(3)
      ensures Decode(b) == this
    {
      var slots := EncodeTokens(tokens);
      var tail := CreateLiquidTail(tokenLength, quShares, quWeight, initialLiquid, feeRate);
      var b := slots + tail;
      SliceOfAppendRight(slots, tail, 321, 328);
      SliceOfAppendRight(slots, tail, 328, 336);
      SliceOfAppendRight(slots, tail, 337, 338);
      SliceOfAppendRight(slots, tail, 338, 340);
      SliceOfAppendRight(slots, tail, 341, 344);
      TokensRoundTrip(tokens, tail);
      b
    }

    static function Decode(b: seq<byte>): (r: CreateLiquidInput)
      requires |b| == Size
      ensures forall i :: 0 <= i < MAX_TOKENS ==> r.tokens[i] == Token.Decode(b[Token.Size * i..Token.Size * (i + 1)])
      ensures r.tokenLength == b[320]
      ensures U64Bytes(r.quShares) == b[328..336]
      ensures r.quWeight == b[336]
      ensures U16Bytes(r.initialLiquid) == b[338..340]
      ensures r.feeRate == b[340]
    {
      U64BytesOf(b[328..336]);
      U16BytesOf(b[338..340]);
      CreateLiquidInput(DecodeTokens(b), b[320], U64Of(b[328..336]), b[336], U16Of(b[338..340]), b[340])
    }
  }

  /** `CreateLiquid_output`: liquidId @0; 8 bytes. */
  datatype CreateLiquidOutput = CreateLiquidOutput(liquidId: u64)
  {
    static const Size: nat := 8

    function Encode(): (b: seq<byte>)
      ensures |b| == Size
      ensures Decode(b) == this
    {
      U64Bytes(liquidId)
    }

    static function Decode(b: seq<byte>): (r: CreateLiquidOutput)
      requires |b| == Size
      ensures U64Bytes(r.liquidId) == b
    {
      U64BytesOf(b);
      CreateLiquidOutput(U64Of(b))
    }
  }

  /** `AddLiquid_input`: tokenContribution @0, liquidId @8; 16 bytes. */
  datatype AddLiquidInput = AddLiquidInput(tokenContribution: u64, liquidId: u64)
  {
    static const Size: nat := 16

    function Encode(): (b: seq<byte>)
      ensures |b| == Size
      ensures b[0..8] == U64Bytes(tokenContribution)
      ensures b[8..16] == U64Bytes(liquidId)
      ensures Decode(b) == this
    {
      var b := U64Bytes(tokenContribution) + U64Bytes(liquidId);
      assert b[0..8] == U64Bytes(tokenContribution);
      assert b[8..16] == U64Bytes(liquidId);
      b
    }

    static function Decode(b: seq<byte>): (r: AddLiquidInput)
      requires |b| == Size
      ensures U64Bytes(r.tokenContribution) == b[0..8]
      ensures U64Bytes(r.liquidId) == b[8..16]
    {
      U64BytesOf(b[0..8]);
      U64BytesOf(b[8..16]);
      AddLiquidInput(U64Of(b[0..8]), U64Of(b[8..16]))
    }
  }

  /** `AddLiquid_output`: addedContribution @0; 8 bytes. */
  datatype AddLiquidOutput = AddLiquidOutput(addedContribution: u64)
  {
    static const Size: nat := 8

    function Encode(): (b: seq<byte>)
      ensures |b| == Size
      ensures Decode(b) == this
    {
      U64Bytes(addedContribution)
    }

    static function Decode(b: seq<byte>): (r: AddLiquidOutput)
      requires |b| == Size
      ensures U64Bytes(r.addedContribution) == b
    {
      U64BytesOf(b);
      AddLiquidOutput(U64Of(b))
    }
  }

  /** `RemoveLiquid_input`: tokenContribution @0, liquidId @8; 16 bytes. */
  datatype RemoveLiquidInput = RemoveLiquidInput(tokenContribution: u64, liquidId: u64)
  {
    static const Size: nat := 16

    function Encode(): (b: seq<byte>)
      ensures |b| == Size
      ensures b[0..8] == U64Bytes(tokenContribution)
      ensures b[8..16] == U64Bytes(liquidId)
      ensures Decode(b) == this
    {
      var b := U64Bytes(tokenContribution) + U64Bytes(liquidId);
      assert b[0..8] == U64Bytes(tokenContribution);
      assert b[8..16] == U64Bytes(liquidId);
      b
    }

    static function Decode(b: seq<byte>): (r: RemoveLiquidInput)
      requires |b| == Size
      ensures U64Bytes(r.tokenContribution) == b[0..8]
      ensures U64Bytes(r.liquidId) == b[8..16]
    {
      U64BytesOf(b[0..8]);
      U64BytesOf(b[8..16]);
      RemoveLiquidInput(U64Of(b[0..8]), U64Of(b[8..16]))
    }
  }

  /** `RemoveLiquid_output`: removedContribution @0; 8 bytes. */
  datatype RemoveLiquidOutput = RemoveLiquidOutput(removedContribution: u64)
  {
    static const Size: nat := 8

    function Encode(): (b: seq<byte>)
      ensures |b| == Size
      ensures Decode(b) == this
    {
      U64Bytes(removedContribution)
    }

    static function Decode(b: seq<byte>): (r: RemoveLiquidOutput)
      requires |b| == Size
      ensures U64Bytes(r.removedContribution) == b
    {
      U64BytesOf(b);
      RemoveLiquidOutput(U64Of(b))
    }
  }

  /** `SwapToQU_input`: liquidId @0, inputTokenInfo @8, inputAmount @56; 64 bytes. */
  datatype SwapToQUInput = SwapToQUInput(liquidId: u64, inputTokenInfo: TokenInfo, inputAmount: u64)
  {
    static const Size: nat := 64

    function Encode(): (b: seq<byte>)
      ensures |b| == Size
      ensures b[0..8] == U64Bytes(liquidId)
      ensures b[8..56] == inputTokenInfo.Encode()
      ensures b[56..64] == U64Bytes(inputAmount)
      ensures Decode(b) == this
    {
      var b := U64Bytes(liquidId) + inputTokenInfo.Encode() + U64Bytes(inputAmount);
      assert b[0..8] == U64Bytes(liquidId);
      assert b[8..56] == inputTokenInfo.Encode();
      assert b[56..64] == U64Bytes(inputAmount);
      b
    }

    static function Decode(b: seq<byte>): (r: SwapToQUInput)
      requires |b| == Size
      ensures U64Bytes(r.liquidId) == b[0..8]
      ensures r.inputTokenInfo == TokenInfo.Decode(b[8..56])
      ensures U64Bytes(r.inputAmount) == b[56..64]
    {
      U64BytesOf(b[0..8]);
      U64BytesOf(b[56..64]);
      SwapToQUInput(U64Of(b[0..8]), TokenInfo.Decode(b[8..56]), U64Of(b[56..64]))
    }
  }

  /** `SwapToQU_output`: quAmount @0; 8 bytes. */
  datatype SwapToQUOutput = SwapToQUOutput(quAmount: u64)
  {
    static const Size: nat := 8

    function Encode(): (b: seq<byte>)
      ensures |b| == Size
      ensures Decode(b) == this
    {
      U64Bytes(quAmount)
    }

    static function Decode(b: seq<byte>): (r: SwapToQUOutput)
      requires |b| == Size
      ensures U64Bytes(r.quAmount) == b
    {
      U64BytesOf(b);
      SwapToQUOutput(U64Of(b))
    }
  }

  /** `SwapFromQU_input`: liquidId @0, outputTokenInfo @8, quAmount @56; 64 bytes. */
  datatype SwapFromQUInput = SwapFromQUInput(liquidId: u64, outputTokenInfo: TokenInfo, quAmount: u64)
  {
    static const Size: nat := 64

    function Encode(): (b: seq<byte>)
      ensures |b| == Size
      ensures b[0..8] == U64Bytes(liquidId)
      ensures b[8..56] == outputTokenInfo.Encode()
      ensures b[56..64] == U64Bytes(quAmount)
      ensures Decode(b) == this
    {
      var b := U64Bytes(liquidId) + outputTokenInfo.Encode() + U64Bytes(quAmount);
      assert b[0..8] == U64Bytes(liquidId);
      assert b[8..56] == outputTokenInfo.Encode();
      assert b[56..64] == U64Bytes(quAmount);
      b
    }

    static function Decode(b: seq<byte>): (r: SwapFromQUInput)
      requires |b| == Size
      ensures U64Bytes(r.liquidId) == b[0..8]
      ensures r.outputTokenInfo == TokenInfo.Decode(b[8..56])
      ensures U64Bytes(r.quAmount) == b[56..64]
    {
      U64BytesOf(b[0..8]);
      U64BytesOf(b[56..64]);
      SwapFromQUInput(U64Of(b[0..8]), TokenInfo.Decode(b[8..56]), U64Of(b[56..64]))
    }
  }

  /** `SwapFromQU_output`: outputAmount @0; 8 bytes. */
  datatype SwapFromQUOutput = SwapFromQUOutput(outputAmount: u64)
  {
    static const Size: nat := 8

    function Encode(): (b: seq<byte>)
      ensures |b| == Size
      ensures Decode(b) == this
    {
      U64Bytes(outputAmount)
    }

    static function Decode(b: seq<byte>): (r: SwapFromQUOutput)
      requires |b| == Size
      ensures U64Bytes(r.outputAmount) == b
    {
      U64BytesOf(b);
      SwapFromQUOutput(U64Of(b))
    }
  }

  /** `SwapToQwallet_input`: liquidId @0, inputTokenInfo @8, inputAmount @56; 64 bytes. */
  datatype SwapToQwalletInput = SwapToQwalletInput(liquidId: u64, inputTokenInfo: TokenInfo, inputAmount: u64)
  {
    static const Size: nat := 64

    function Encode(): (b: seq<byte>)
      ensures |b| == Size
      ensures b[0..8] == U64Bytes(liquidId)
      ensures b[8..56] == inputTokenInfo.Encode()
      ensures b[56..64] == U64Bytes(inputAmount)
      ensures Decode(b) == this
    {
      var b := U64Bytes(liquidId) + inputTokenInfo.Encode() + U64Bytes(inputAmount);
      assert b[0..8] == U64Bytes(liquidId);
      assert b[8..56] == inputTokenInfo.Encode();
      assert b[56..64] == U64Bytes(inputAmount);
      b
    }

    static function Decode(b: seq<byte>): (r: SwapToQwalletInput)
      requires |b| == Size
      ensures U64Bytes(r.liquidId) == b[0..8]
      ensures r.inputTokenInfo == TokenInfo.Decode(b[8..56])
      ensures U64Bytes(r.inputAmount) == b[56..64]
    {
      U64BytesOf(b[0..8]);
      U64BytesOf(b[56..64]);
      SwapToQwalletInput(U64Of(b[0..8]), TokenInfo.Decode(b[8..56]), U64Of(b[56..64]))
    }
  }

  /** `SwapToQwallet_output`: qwalletAmount @0, quAmount @8; 16 bytes. */
  datatype SwapToQwalletOutput = SwapToQwalletOutput(qwalletAmount: u64, quAmount: u64)
  {
    static const Size: nat := 16

    function Encode(): (b: seq<byte>)
      ensures |b| == Size
      ensures b[0..8] == U64Bytes(qwalletAmount)
      ensures b[8..16] == U64Bytes(quAmount)
      ensures Decode(b) == this
    {
      var b := U64Bytes(qwalletAmount) + U64Bytes(quAmount);
      assert b[0..8] == U64Bytes(qwalletAmount);
      assert b[8..16] == U64Bytes(quAmount);
      b
    }

    static function Decode(b: seq<byte>): (r: SwapToQwalletOutput)
      requires |b| == Size
      ensures U64Bytes(r.qwalletAmount) == b[0..8]
      ensures U64Bytes(r.quAmount) == b[8..16]
    {
      U64BytesOf(b[0..8]);
      U64BytesOf(b[8..16]);
      SwapToQwalletOutput(U64Of(b[0..8]), U64Of(b[8..16]))
    }
  }

  /** `SwapFromQwallet_input`: liquidId @0, outputTokenInfo @8, qwalletAmount @56; 64 bytes. */
  datatype SwapFromQwalletInput = SwapFromQwalletInput(liquidId: u64, outputTokenInfo: TokenInfo, qwalletAmount: u64)
  {
    static const Size: nat := 64

    function Encode(): (b: seq<byte>)
      ensures |b| == Size
      ensures b[0..8] == U64Bytes(liquidId)
      ensures b[8..56] == outputTokenInfo.Encode()
      ensures b[56..64] == U64Bytes(qwalletAmount)
      ensures Decode(b) == this
    {
      var b := U64Bytes(liquidId) + outputTokenInfo.Encode() + U64Bytes(qwalletAmount);
      assert b[0..8] == U64Bytes(liquidId);
      assert b[8..56] == outputTokenInfo.Encode();
      assert b[56..64] == U64Bytes(qwalletAmount);
      b
    }

    static function Decode(b: seq<byte>): (r: SwapFromQwalletInput)
      requires |b| == Size
      ensures U64Bytes(r.liquidId) == b[0..8]
      ensures r.outputTokenInfo == TokenInfo.Decode(b[8..56])
      ensures U64Bytes(r.qwalletAmount) == b[56..64]
    {
      U64BytesOf(b[0..8]);
      U64BytesOf(b[56..64]);
      SwapFromQwalletInput(U64Of(b[0..8]), TokenInfo.Decode(b[8..56]), U64Of(b[56..64]))
    }
  }

  /** `SwapFromQwallet_output`: outputAmount @0, quAmount @8; 16 bytes. */
  datatype SwapFromQwalletOutput = SwapFromQwalletOutput(outputAmount: u64, quAmount: u64)
  {
    static const Size: nat := 16

    function Encode(): (b: seq<byte>)
      ensures |b| == Size
      ensures b[0..8] == U64Bytes(outputAmount)
      ensures b[8..16] == U64Bytes(quAmount)
      ensures Decode(b) == this
    {
      var b := U64Bytes(outputAmount) + U64Bytes(quAmount);
      assert b[0..8] == U64Bytes(outputAmount);
      assert b[8..16] == U64Bytes(quAmount);
      b
    }

    static function Decode(b: seq<byte>): (r: SwapFromQwalletOutput)
      requires |b| == Size
      ensures U64Bytes(r.outputAmount) == b[0..8]
      ensures U64Bytes(r.quAmount) == b[8..16]
    {
      U64BytesOf(b[0..8]);
      U64BytesOf(b[8..16]);
      SwapFromQwalletOutput(U64Of(b[0..8]), U64Of(b[8..16]))
    }
  }

  /** `SwapQUToQwallet_input`: liquidId @0, quAmount @8; 16 bytes. */
  datatype SwapQUToQwalletInput = SwapQUToQwalletInput(liquidId: u64, quAmount: u64)
  {
    static const Size: nat := 16

    function Encode(): (b: seq<byte>)
      ensures |b| == Size
      ensures b[0..8] == U64Bytes(liquidId)
      ensures b[8..16] == U64Bytes(quAmount)
      ensures Decode(b) == this
    {
      var b := U64Bytes(liquidId) + U64Bytes(quAmount);
      assert b[0..8] == U64Bytes(liquidId);
      assert b[8..16] == U64Bytes(quAmount);
      b
    }

    static function Decode(b: seq<byte>): (r: SwapQUToQwalletInput)
      requires |b| == Size
      ensures U64Bytes(r.liquidId) == b[0..8]
      ensures U64Bytes(r.quAmount) == b[8..16]
    {
      U64BytesOf(b[0..8]);
      U64BytesOf(b[8..16]);
      SwapQUToQwalletInput(U64Of(b[0..8]), U64Of(b[8..16]))
    }
  }

  /** `SwapQUToQwallet_output`: qwalletAmount @0; 8 bytes. */
  datatype SwapQUToQwalletOutput = SwapQUToQwalletOutput(qwalletAmount: u64)
  {
    static const Size: nat := 8

    function Encode(): (b: seq<byte>)
      ensures |b| == Size
      ensures Decode(b) == this
    {
      U64Bytes(qwalletAmount)
    }

    static function Decode(b: seq<byte>): (r: SwapQUToQwalletOutput)
      requires |b| == Size
      ensures U64Bytes(r.qwalletAmount) == b
    {
      U64BytesOf(b);
      SwapQUToQwalletOutput(U64Of(b))
    }
  }

  /** `SwapQwalletToQU_input`: liquidId @0, qwalletAmount @8; 16 bytes. */
  datatype SwapQwalletToQUInput = SwapQwalletToQUInput(liquidId: u64, qwalletAmount: u64)
  {
    static const Size: nat := 16

    function Encode(): (b: seq<byte>)
      ensures |b| == Size
      ensures b[0..8] == U64Bytes(liquidId)
      ensures b[8..16] == U64Bytes(qwalletAmount)
      ensures Decode(b) == this
    {
      var b := U64Bytes(liquidId) + U64Bytes(qwalletAmount);
      assert b[0..8] == U64Bytes(liquidId);
      assert b[8..16] == U64Bytes(qwalletAmount);
      b
    }

    static function Decode(b: seq<byte>): (r: SwapQwalletToQUInput)
      requires |b| == Size
      ensures U64Bytes(r.liquidId) == b[0..8]
      ensures U64Bytes(r.qwalletAmount) == b[8..16]
    {
      U64BytesOf(b[0..8]);
      U64BytesOf(b[8..16]);
      SwapQwalletToQUInput(U64Of(b[0..8]), U64Of(b[8..16]))
    }
  }

  /** `SwapQwalletToQU_output`: quAmount @0; 8 bytes. */
  datatype SwapQwalletToQUOutput = SwapQwalletToQUOutput(quAmount: u64)
  {
    static const Size: nat := 8

    function Encode(): (b: seq<byte>)
      ensures |b| == Size
      ensures Decode(b) == this
    {
      U64Bytes(quAmount)
    }

    static function Decode(b: seq<byte>): (r: SwapQwalletToQUOutput)
      requires |b| == Size
      ensures U64Bytes(r.quAmount) == b
    {
      U64BytesOf(b);
      SwapQwalletToQUOutput(U64Of(b))
    }
  }

  /** `SingleSwap_input`: liquidId @0, inputTokenInfo @8, outputTokenInfo @56, inputAmount @104; 112 bytes. */
  datatype SingleSwapInput = SingleSwapInput(liquidId: u64, inputTokenInfo: TokenInfo, outputTokenInfo: TokenInfo, inputAmount: u64)
  {
    static const Size: nat := 112

    function Encode(): (b: seq<byte>)
      ensures |b| == Size
      ensures b[0..8] == U64Bytes(liquidId)
      ensures b[8..56] == inputTokenInfo.Encode()
      ensures b[56..104] == outputTokenInfo.Encode()
      ensures b[104..112] == U64Bytes(inputAmount)
      ensures Decode(b) == this
    {
      var b := U64Bytes(liquidId) + inputTokenInfo.Encode() + outputTokenInfo.Encode() + U64Bytes(inputAmount);
      assert b[0..8] == U64Bytes(liquidId);
      assert b[8..56] == inputTokenInfo.Encode();
      assert b[56..104] == outputTokenInfo.Encode();
      assert b[104..112] == U64Bytes(inputAmount);
      b
    }

    static function Decode(b: seq<byte>): (r: SingleSwapInput)
      requires |b| == Size
      ensures U64Bytes(r.liquidId) == b[0..8]
      ensures r.inputTokenInfo == TokenInfo.Decode(b[8..56])
      ensures r.outputTokenInfo == TokenInfo.Decode(b[56..104])
      ensures U64Bytes(r.inputAmount) == b[104..112]
    {
      U64BytesOf(b[0..8]);
      U64BytesOf(b[104..112]);
      SingleSwapInput(U64Of(b[0..8]), TokenInfo.Decode(b[8..56]), TokenInfo.Decode(b[56..104]), U64Of(b[104..112]))
    }
  }

  /** `SingleSwap_output`: outputAmount @0, outputQwalletAmount @8, outputQuAmount @16; 24 bytes. */
  datatype SingleSwapOutput = SingleSwapOutput(outputAmount: u64, outputQwalletAmount: u64, outputQuAmount: u64)
  {
    static const Size: nat := 24

    function Encode(): (b: seq<byte>)
      ensures |b| == Size
      ensures b[0..8] == U64Bytes(outputAmount)
      ensures b[8..16] == U64Bytes(outputQwalletAmount)
      ensures b[16..24] == U64Bytes(outputQuAmount)
      ensures Decode(b) == this
    {
      var b := U64Bytes(outputAmount) + U64Bytes(outputQwalletAmount) + U64Bytes(outputQuAmount);
      assert b[0..8] == U64Bytes(outputAmount);
      assert b[8..16] == U64Bytes(outputQwalletAmount);
      assert b[16..24] == U64Bytes(outputQuAmount);
      b
    }

    static function Decode(b: seq<byte>): (r: SingleSwapOutput)
      requires |b| == Size
      ensures U64Bytes(r.outputAmount) == b[0..8]
      ensures U64Bytes(r.outputQwalletAmount) == b[8..16]
      ensures U64Bytes(r.outputQuAmount) == b[16..24]
    {
      U64BytesOf(b[0..8]);
      U64BytesOf(b[8..16]);
      U64BytesOf(b[16..24]);
      SingleSwapOutput(U64Of(b[0..8]), U64Of(b[8..16]), U64Of(b[16..24]))
    }
  }

  /** `CrossSwap_input`: liquidIdA @0, inputTokenInfoA @8, inputAmountA @56, liquidIdB @64, outputTokenInfoB @72; 120 bytes. */
  datatype CrossSwapInput = CrossSwapInput(liquidIdA: u64, inputTokenInfoA: TokenInfo, inputAmountA: u64, liquidIdB: u64, outputTokenInfoB: TokenInfo)
  {
    static const Size: nat := 120

    function Encode(): (b: seq<byte>)
      ensures |b| == Size
      ensures b[0..8] == U64Bytes(liquidIdA)
      ensures b[8..56] == inputTokenInfoA.Encode()
      ensures b[56..64] == U64Bytes(inputAmountA)
      ensures b[64..72] == U64Bytes(liquidIdB)
      ensures b[72..120] == outputTokenInfoB.Encode()
      ensures Decode(b) == this
    {
      var b := U64Bytes(liquidIdA) + inputTokenInfoA.Encode() + U64Bytes(inputAmountA) + U64Bytes(liquidIdB) + outputTokenInfoB.Encode();
      assert b[0..8] == U64Bytes(liquidIdA);
      assert b[8..56] == inputTokenInfoA.Encode();
      assert b[56..64] == U64Bytes(inputAmountA);
      assert b[64..72] == U64Bytes(liquidIdB);
      assert b[72..120] == outputTokenInfoB.Encode();
      b
    }

    static function Decode(b: seq<byte>): (r: CrossSwapInput)
      requires |b| == Size
      ensures U64Bytes(r.liquidIdA) == b[0..8]
      ensures r.inputTokenInfoA == TokenInfo.Decode(b[8..56])
      ensures U64Bytes(r.inputAmountA) == b[56..64]
      ensures U64Bytes(r.liquidIdB) == b[64..72]
      ensures r.outputTokenInfoB == TokenInfo.Decode(b[72..120])
    {
      U64BytesOf(b[0..8]);
      U64BytesOf(b[56..64]);
      U64BytesOf(b[64..72]);
      CrossSwapInput(U64Of(b[0..8]), TokenInfo.Decode(b[8..56]), U64Of(b[56..64]), U64Of(b[64..72]), TokenInfo.Decode(b[72..120]))
    }
  }

  /** `CrossSwap_output`: outputAmountB @0, outputQwalletAmount @8, outputQuAmount @16; 24 bytes. */
  datatype CrossSwapOutput = CrossSwapOutput(outputAmountB: u64, outputQwalletAmount: u64, outputQuAmount: u64)
  {
    static const Size: nat := 24

    function Encode(): (b: seq<byte>)
      ensures |b| == Size
      ensures b[0..8] == U64Bytes(outputAmountB)
      ensures b[8..16] == U64Bytes(outputQwalletAmount)
      ensures b[16..24] == U64Bytes(outputQuAmount)
      ensures Decode(b) == this
    {
      var b := U64Bytes(outputAmountB) + U64Bytes(outputQwalletAmount) + U64Bytes(outputQuAmount);
      assert b[0..8] == U64Bytes(outputAmountB);
      assert b[8..16] == U64Bytes(outputQwalletAmount);
      assert b[16..24] == U64Bytes(outputQuAmount);
      b
    }

    static function Decode(b: seq<byte>): (r: CrossSwapOutput)
      requires |b| == Size
      ensures U64Bytes(r.outputAmountB) == b[0..8]
      ensures U64Bytes(r.outputQwalletAmount) == b[8..16]
      ensures U64Bytes(r.outputQuAmount) == b[16..24]
    {
      U64BytesOf(b[0..8]);
      U64BytesOf(b[8..16]);
      U64BytesOf(b[16..24]);
      CrossSwapOutput(U64Of(b[0..8]), U64Of(b[8..16]), U64Of(b[16..24]))
    }
  }

  /** `InitializeStakingPool_input`: liquidId @0, bonusTokenInfo @8; 56 bytes. */
  datatype InitializeStakingPoolInput = InitializeStakingPoolInput(liquidId: u64, bonusTokenInfo: TokenInfo)
  {
    static const Size: nat := 56

    function Encode(): (b: seq<byte>)
      ensures |b| == Size
      ensures b[0..8] == U64Bytes(liquidId)
      ensures b[8..56] == bonusTokenInfo.Encode()
      ensures Decode(b) == this
    {
      var b := U64Bytes(liquidId) + bonusTokenInfo.Encode();
      assert b[0..8] == U64Bytes(liquidId);
      assert b[8..56] == bonusTokenInfo.Encode();
      b
    }

    static function Decode(b: seq<byte>): (r: InitializeStakingPoolInput)
      requires |b| == Size
      ensures U64Bytes(r.liquidId) == b[0..8]
      ensures r.bonusTokenInfo == TokenInfo.Decode(b[8..56])
    {
      U64BytesOf(b[0..8]);
      InitializeStakingPoolInput(U64Of(b[0..8]), TokenInfo.Decode(b[8..56]))
    }
  }

  /** `InitializeStakingPool_output`: success @0; 1 bytes. */
  datatype InitializeStakingPoolOutput = InitializeStakingPoolOutput(success: bool)
  {
    static const Size: nat := 1

    function Encode(): (b: seq<byte>)
      ensures |b| == Size
      ensures Decode(b) == this
    {
      [BoolByte(success)]
    }

    static function Decode(b: seq<byte>): (r: InitializeStakingPoolOutput)
      requires |b| == Size
      ensures r.success == (b[0] != 0)
    {
      InitializeStakingPoolOutput(b[0] != 0)
    }
  }

  /** `DepositeBonusToken_input`: liquidId @0, bonusTokenAmount @8; 16 bytes. */
  datatype DepositeBonusTokenInput = DepositeBonusTokenInput(liquidId: u64, bonusTokenAmount: u64)
  {
    static const Size: nat := 16

    function Encode(): (b: seq<byte>)
      ensures |b| == Size
      ensures b[0..8] == U64Bytes(liquidId)
      ensures b[8..16] == U64Bytes(bonusTokenAmount)
      ensures Decode(b) == this
    {
      var b := U64Bytes(liquidId) + U64Bytes(bonusTokenAmount);
      assert b[0..8] == U64Bytes(liquidId);
      assert b[8..16] == U64Bytes(bonusTokenAmount);
      b
    }

    static function Decode(b: seq<byte>): (r: DepositeBonusTokenInput)
      requires |b| == Size
      ensures U64Bytes(r.liquidId) == b[0..8]
      ensures U64Bytes(r.bonusTokenAmount) == b[8..16]
    {
      U64BytesOf(b[0..8]);
      U64BytesOf(b[8..16]);
      DepositeBonusTokenInput(U64Of(b[0..8]), U64Of(b[8..16]))
    }
  }

  /** `DepositeBonusToken_output`: depositedBonusTokenAmount @0; 8 bytes. */
  datatype DepositeBonusTokenOutput = DepositeBonusTokenOutput(depositedBonusTokenAmount: u64)
  {
    static const Size: nat := 8

    function Encode(): (b: seq<byte>)
      ensures |b| == Size
      ensures Decode(b) == this
    {
      U64Bytes(depositedBonusTokenAmount)
    }

    static function Decode(b: seq<byte>): (r: DepositeBonusTokenOutput)
      requires |b| == Size
      ensures U64Bytes(r.depositedBonusTokenAmount) == b
    {
      U64BytesOf(b);
      DepositeBonusTokenOutput(U64Of(b))
    }
  }

  /** `Stake_input`: liquidId @0, lpAmount @8; 16 bytes. */
  datatype StakeInput = StakeInput(liquidId: u64, lpAmount: u64)
  {
    static const Size: nat := 16

    function Encode(): (b: seq<byte>)
      ensures |b| == Size
      ensures b[0..8] == U64Bytes(liquidId)
      ensures b[8..16] == U64Bytes(lpAmount)
      ensures Decode(b) == this
    {
      var b := U64Bytes(liquidId) + U64Bytes(lpAmount);
      assert b[0..8] == U64Bytes(liquidId);
      assert b[8..16] == U64Bytes(lpAmount);
      b
    }

    static function Decode(b: seq<byte>): (r: StakeInput)
      requires |b| == Size
      ensures U64Bytes(r.liquidId) == b[0..8]
      ensures U64Bytes(r.lpAmount) == b[8..16]
    {
      U64BytesOf(b[0..8]);
      U64BytesOf(b[8..16]);
      StakeInput(U64Of(b[0..8]), U64Of(b[8..16]))
    }
  }

  /** `Stake_output`: stakedLpAmount @0; 8 bytes. */
  datatype StakeOutput = StakeOutput(stakedLpAmount: u64)
  {
    static const Size: nat := 8

    function Encode(): (b: seq<byte>)
      ensures |b| == Size
      ensures Decode(b) == this
    {
      U64Bytes(stakedLpAmount)
    }

    static function Decode(b: seq<byte>): (r: StakeOutput)
      requires |b| == Size
      ensures U64Bytes(r.stakedLpAmount) == b
    {
      U64BytesOf(b);
      StakeOutput(U64Of(b))
    }
  }

  /** `Unstake_input`: liquidId @0, lpAmount @8; 16 bytes. */
  datatype UnstakeInput = UnstakeInput(liquidId: u64, lpAmount: u64)
  {
    static const Size: nat := 16

    function Encode(): (b: seq<byte>)
      ensures |b| == Size
      ensures b[0..8] == U64Bytes(liquidId)
      ensures b[8..16] == U64Bytes(lpAmount)
      ensures Decode(b) == this
    {
      var b := U64Bytes(liquidId) + U64Bytes(lpAmount);
      assert b[0..8] == U64Bytes(liquidId);
      assert b[8..16] == U64Bytes(lpAmount);
      b
    }

    static function Decode(b: seq<byte>): (r: UnstakeInput)
      requires |b| == Size
      ensures U64Bytes(r.liquidId) == b[0..8]
      ensures U64Bytes(r.lpAmount) == b[8..16]
    {
      U64BytesOf(b[0..8]);
      U64BytesOf(b[8..16]);
      UnstakeInput(U64Of(b[0..8]), U64Of(b[8..16]))
    }
  }

  /** `Unstake_output`: unstakedLpAmount @0; 8 bytes. */
  datatype UnstakeOutput = UnstakeOutput(unstakedLpAmount: u64)
  {
    static const Size: nat := 8

    function Encode(): (b: seq<byte>)
      ensures |b| == Size
      ensures Decode(b) == this
    {
      U64Bytes(unstakedLpAmount)
    }

    static function Decode(b: seq<byte>): (r: UnstakeOutput)
      requires |b| == Size
      ensures U64Bytes(r.unstakedLpAmount) == b
    {
      U64BytesOf(b);
      UnstakeOutput(U64Of(b))
    }
  }

  /** `IssueAsset_input`: name @0, numberOfUnits @8, unitOfMeasurement @16, numberOfDecimalPlaces @24, padding @25..32; 32 bytes. */
  datatype IssueAssetInput = IssueAssetInput(name: u64, numberOfUnits: i64, unitOfMeasurement: u64, numberOfDecimalPlaces: i8)
  {
    static const Size: nat := 32

    function Encode(): (b: seq<byte>)
      ensures |b| == Size
      ensures b[0..8] == U64Bytes(name)
      ensures b[8..16] == I64Bytes(numberOfUnits)
      ensures b[16..24] == U64Bytes(unitOfMeasurement)
      ensures b[24] == I8Bits(numberOfDecimalPlaces)
      ensures b[25..32] == Zeros(7)
      ensures Decode(b) == this
    {
      var b := U64Bytes(name) + I64Bytes(numberOfUnits) + U64Bytes(unitOfMeasurement) + [I8Bits(numberOfDecimalPlaces)] + Zeros(7);
      assert b[0..8] == U64Bytes(name);
      assert b[8..16] == I64Bytes(numberOfUnits);
      assert b[16..24] == U64Bytes(unitOfMeasurement);
      assert b[24] == I8Bits(numberOfDecimalPlaces);
      assert b[25..32] == Zeros(7);
      b
    }

    static function Decode(b: seq<byte>): (r: IssueAssetInput)
      requires |b| == Size
      ensures U64Bytes(r.name) == b[0..8]
      ensures I64Bytes(r.numberOfUnits) == b[8..16]
      ensures U64Bytes(r.unitOfMeasurement) == b[16..24]
      ensures I8Bits(r.numberOfDecimalPlaces) == b[24]
    {
      U64BytesOf(b[0..8]);
      I64BytesOf(b[8..16]);
      U64BytesOf(b[16..24]);
      IssueAssetInput(U64Of(b[0..8]), I64Of(b[8..16]), U64Of(b[16..24]), I8OfBits(b[24]))
    }
  }
}
