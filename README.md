# vliquid query client, modelled in Dafny

This project models the two read-only queries of the VLIQUID contract
client (`vliquidBalanceOfMicroToken` and `vliquidMicroTokenAllowance`) and
the fixed-layout records exchanged with the contract.

Each query does three things:

- It lays out one packet: a request header, a contract-function envelope and the input record.
- It sends exactly the number of bytes the header declares.
- It walks the received buffer frame by frame and keeps the output record of the last response frame that has room for one. When no frame qualifies, the result is zero.

Modules:

- `Bytes` defines the fixed-width integers and their little-endian images.
- `VliquidStruct` defines every input and output record of `vliquidStruct.h` as a datatype, with encode and decode and with x86-64 natural-alignment padding made explicit.
- `Framing` keeps the header and the envelope abstract. Their layout is defined outside the client. A `Framing` value supplies the header length, how a header is written and read back, the request and response types, and the envelope length and writer. `Framing.Valid` states the little the client relies on.
- `Vliquid` contains three groups of members:
  - the packet builders, as methods over a byte array;
  - the response scanner, as a loop proved equal to the specification "record of the last matching frame, else zeros";
  - the two queries composed from them.

The identity-to-public-key conversion is a function parameter `keyOf`. The random dejavu is a parameter `dejavu`. The received buffer is a parameter.

Two points of the code that the model keeps as they are:

- The scan keeps the last matching frame, not the first.
- `TokenInfo`, `Token`, `CreateLiquid_input` and `IssueAsset_input` carry x86-64 alignment padding, and the model includes it.

## Model

| member | source | states |
|---|---|---|
| Bytes.Zeros | vliquid.cpp:72-73 | `memset(&result, 0, n)` leaves `n` bytes, all zero |
| Bytes.U64Bytes | vliquidStruct.h:10 | a `uint64_t` is stored as 8 bytes that read back as the same value |
| Bytes.U64BytesOf | vliquidStruct.h:10 | every 8 bytes are the image of the `uint64_t` they hold, so reading and rewriting a field changes nothing |
| Bytes.U64OfZeros | vliquid.cpp:72-73 | a zeroed 8-byte field reads as 0 |
| Bytes.U64Of | vliquid.cpp:79-80 | reading a `uint64_t` field through a pointer cast: the value of its 8 little-endian bytes (`U64BytesOf` and `U64Bytes` show it inverts the stored image) |
| Bytes.U16Bytes | vliquidStruct.h:100 | a `uint16_t` is stored as 2 bytes that read back as the same value |
| Bytes.U16BytesOf | vliquidStruct.h:100 | every 2 bytes are the image of the `uint16_t` they hold |
| Bytes.U16Of | vliquidStruct.h:100 | reading a `uint16_t` field: the value of its 2 little-endian bytes (inverted by `U16Bytes`, `U16BytesOf`) |
| Bytes.I64Bytes | vliquidStruct.h:11 | an `int64_t` is stored as its two's-complement 8 bytes, which read back as the same value |
| Bytes.I64BytesOf | vliquidStruct.h:11 | every 8 bytes are the image of the `int64_t` they hold |
| Bytes.I64Of | vliquidStruct.h:11 | reading an `int64_t` field: its 8 bytes as an unsigned value, reinterpreted as two's complement (inverted by `I64Bytes`, `I64BytesOf`) |
| Bytes.I64Bits | vliquidStruct.h:11 | the two's-complement bits of a non-negative `int64_t` are its value, and those of a negative one have the top bit set |
| Bytes.I64OfBits | vliquidStruct.h:11 | reinterpreting 64 bits as signed and back gives the same bits |
| Bytes.I8Bits | vliquidStruct.h:254 | the bits of a non-negative `char` are its value |
| Bytes.I8OfBits | vliquidStruct.h:254 | reinterpreting a byte as a signed `char` and back gives the same byte |
| Bytes.FromLEOfLE | vliquidStruct.h:10 | decoding the little-endian image of a value that fits gives the value back |
| Bytes.LEOfFromLE | vliquidStruct.h:10 | encoding the value of a byte string gives the byte string back |
| Bytes.LEInjective | vliquidStruct.h:10 | two values that fit have the same image only if they are equal |
| Framing.Framing.Valid | vliquid.cpp:50-52 | what the client relies on from the header and envelope: a header has a fixed non-zero length and reads back the size and type it was written with, as `setSize`/`setType` then `header.size()` at vliquid.cpp:65 and `header->type()`/`header->size()` at vliquid.cpp:76-88 use them; an envelope has a fixed length; and the two end on an 8-byte boundary so the input record follows without padding |
| VliquidStruct.BoolByte | vliquidStruct.h:86 | a `bool` byte is non-zero exactly when the value is true |
| VliquidStruct.EncodeTokens | vliquidStruct.h:96 | `Token tokens[MAX_TOKENS]` is the tokens' images one after another, each in its own 64-byte slot |
| VliquidStruct.DecodeTokens | vliquidStruct.h:96 | slot `i` of the array is read from bytes `64*i .. 64*(i+1)`, always `MAX_TOKENS` = 5 slots |
| VliquidStruct.CreateLiquidTail | vliquidStruct.h:97-101 | the fields after the token slots of `CreateLiquid_input`: tokenLength, 7 padding bytes, quShares, quWeight, 1 padding byte, initialLiquid, feeRate, 3 padding bytes, 24 bytes in all |
| VliquidStruct.TailOfLayout | vliquidStruct.h:97-101 | in a tail built from the field bytes, tokenLength is at offset 0, quShares at 8..16, quWeight at 16, initialLiquid at 18..20 and feeRate at 20, with zero padding at 1..8, 17..18 and 21..24 |
| VliquidStruct.TokensRoundTrip | vliquidStruct.h:95-102 | reading the token slots back yields the stored tokens, whatever follows them |
| VliquidStruct.SingleU64OutputsAgree | vliquidStruct.h:14-16 | `ConvertToMicroToken_output`, `BalanceOfMicroToken_output` and `MicroTokenAllowance_output` read the same 8 bytes as the same number and write the same number as the same bytes |
| VliquidStruct.ConvertToMicroTokenInput.Encode | vliquidStruct.h:8-12 | `ConvertToMicroToken_input` is 48 bytes, each field's bytes at its offset (issuer @0, assetName @32, expensiveTokenAmount @40), and `Decode` gives the record back |
| VliquidStruct.ConvertToMicroTokenInput.Decode | vliquidStruct.h:8-12 | each field of `ConvertToMicroToken_input` is the value whose encoding is the bytes at its offset |
| VliquidStruct.ConvertToMicroTokenOutput.Encode | vliquidStruct.h:14-16 | `ConvertToMicroToken_output` is 8 bytes, each field's bytes at its offset (microTokenAmount @0), and `Decode` gives the record back |
| VliquidStruct.ConvertToMicroTokenOutput.Decode | vliquidStruct.h:14-16 | each field of `ConvertToMicroToken_output` is the value whose encoding is the bytes at its offset |
| VliquidStruct.ConvertToExpensiveTokenInput.Encode | vliquidStruct.h:18-22 | `ConvertToExpensiveToken_input` is 48 bytes, each field's bytes at its offset (issuer @0, assetName @32, microTokenAmount @40), and `Decode` gives the record back |
| VliquidStruct.ConvertToExpensiveTokenInput.Decode | vliquidStruct.h:18-22 | each field of `ConvertToExpensiveToken_input` is the value whose encoding is the bytes at its offset |
| VliquidStruct.ConvertToExpensiveTokenOutput.Encode | vliquidStruct.h:24-26 | `ConvertToExpensiveToken_output` is 8 bytes, each field's bytes at its offset (expensiveTokenAmount @0), and `Decode` gives the record back |
| VliquidStruct.ConvertToExpensiveTokenOutput.Decode | vliquidStruct.h:24-26 | each field of `ConvertToExpensiveToken_output` is the value whose encoding is the bytes at its offset |
| VliquidStruct.TransferMicroTokenInput.Encode | vliquidStruct.h:28-33 | `TransferMicroToken_input` is 80 bytes, each field's bytes at its offset (issuer @0, assetName @32, recipient @40, microTokenAmount @72), and `Decode` gives the record back |
| VliquidStruct.TransferMicroTokenInput.Decode | vliquidStruct.h:28-33 | each field of `TransferMicroToken_input` is the value whose encoding is the bytes at its offset |
| VliquidStruct.TransferMicroTokenOutput.Encode | vliquidStruct.h:35-37 | `TransferMicroToken_output` is 8 bytes, each field's bytes at its offset (transferredMicroTokenAmount @0), and `Decode` gives the record back |
| VliquidStruct.TransferMicroTokenOutput.Decode | vliquidStruct.h:35-37 | each field of `TransferMicroToken_output` is the value whose encoding is the bytes at its offset |
| VliquidStruct.MicroTokenAllowanceInput.Encode | vliquidStruct.h:39-44 | `MicroTokenAllowance_input` is 104 bytes, each field's bytes at its offset (issuer @0, assetName @32, recipient @40, spender @72), and `Decode` gives the record back |
| VliquidStruct.MicroTokenAllowanceInput.Decode | vliquidStruct.h:39-44 | each field of `MicroTokenAllowance_input` is the value whose encoding is the bytes at its offset |
| VliquidStruct.MicroTokenAllowanceOutput.Encode | vliquidStruct.h:46-48 | `MicroTokenAllowance_output` is 8 bytes, each field's bytes at its offset (balance @0), and `Decode` gives the record back |
| VliquidStruct.MicroTokenAllowanceOutput.Decode | vliquidStruct.h:46-48 | each field of `MicroTokenAllowance_output` is the value whose encoding is the bytes at its offset |
| VliquidStruct.BalanceOfMicroTokenInput.Encode | vliquidStruct.h:50-54 | `BalanceOfMicroToken_input` is 72 bytes, each field's bytes at its offset (issuer @0, assetName @32, owner @40), and `Decode` gives the record back |
| VliquidStruct.BalanceOfMicroTokenInput.Decode | vliquidStruct.h:50-54 | each field of `BalanceOfMicroToken_input` is the value whose encoding is the bytes at its offset |
| VliquidStruct.BalanceOfMicroTokenOutput.Encode | vliquidStruct.h:56-58 | `BalanceOfMicroToken_output` is 8 bytes, each field's bytes at its offset (balance @0), and `Decode` gives the record back |
| VliquidStruct.BalanceOfMicroTokenOutput.Decode | vliquidStruct.h:56-58 | each field of `BalanceOfMicroToken_output` is the value whose encoding is the bytes at its offset |
| VliquidStruct.ApproveMicroTokenInput.Encode | vliquidStruct.h:60-65 | `ApproveMicroToken_input` is 80 bytes, each field's bytes at its offset (issuer @0, recipient @32, assetName @64, microTokenAmount @72), and `Decode` gives the record back |
| VliquidStruct.ApproveMicroTokenInput.Decode | vliquidStruct.h:60-65 | each field of `ApproveMicroToken_input` is the value whose encoding is the bytes at its offset |
| VliquidStruct.ApproveMicroTokenOutput.Encode | vliquidStruct.h:67-69 | `ApproveMicroToken_output` is 8 bytes, each field's bytes at its offset (approvedMicroTokenAmount @0), and `Decode` gives the record back |
| VliquidStruct.ApproveMicroTokenOutput.Decode | vliquidStruct.h:67-69 | each field of `ApproveMicroToken_output` is the value whose encoding is the bytes at its offset |
| VliquidStruct.TransferFromMicroTokenInput.Encode | vliquidStruct.h:71-77 | `TransferFromMicroToken_input` is 112 bytes, each field's bytes at its offset (issuer @0, assetName @32, spender @40, recipient @72, microTokenAmount @104), and `Decode` gives the record back |
| VliquidStruct.TransferFromMicroTokenInput.Decode | vliquidStruct.h:71-77 | each field of `TransferFromMicroToken_input` is the value whose encoding is the bytes at its offset |
| VliquidStruct.TransferFromMicroTokenOutput.Encode | vliquidStruct.h:79-81 | `TransferFromMicroToken_output` is 8 bytes, each field's bytes at its offset (transferredMicroTokenAmount @0), and `Decode` gives the record back |
| VliquidStruct.TransferFromMicroTokenOutput.Decode | vliquidStruct.h:79-81 | each field of `TransferFromMicroToken_output` is the value whose encoding is the bytes at its offset |
| VliquidStruct.TokenInfo.Encode | vliquidStruct.h:83-87 | `TokenInfo` is 48 bytes, each field's bytes at its offset (issuer @0, assetName @32, isMicroToken @40, padding @41..48) (padding written as zeros), and `Decode` gives the record back |
| VliquidStruct.TokenInfo.Decode | vliquidStruct.h:83-87 | each field of `TokenInfo` is the value whose encoding is the bytes at its offset; padding bytes are ignored |
| VliquidStruct.Token.Encode | vliquidStruct.h:89-93 | `Token` is 64 bytes, each field's bytes at its offset (tokenInfo @0, balance @48, weight @56, padding @57..64) (padding written as zeros), and `Decode` gives the record back |
| VliquidStruct.Token.Decode | vliquidStruct.h:89-93 | each field of `Token` is the value whose encoding is the bytes at its offset; padding bytes are ignored |
| VliquidStruct.CreateLiquidInput.Encode | vliquidStruct.h:95-102 | `CreateLiquid_input` is 344 bytes, each field's bytes at its offset (tokens @0, tokenLength @320, padding @321..328, quShares @328, quWeight @336, padding @337..338, initialLiquid @338, feeRate @340, padding @341..344) (padding written as zeros), and `Decode` gives the record back |
| VliquidStruct.CreateLiquidInput.Decode | vliquidStruct.h:95-102 | each field of `CreateLiquid_input` is the value whose encoding is the bytes at its offset; padding bytes are ignored |
| VliquidStruct.CreateLiquidOutput.Encode | vliquidStruct.h:104-106 | `CreateLiquid_output` is 8 bytes, each field's bytes at its offset (liquidId @0), and `Decode` gives the record back |
| VliquidStruct.CreateLiquidOutput.Decode | vliquidStruct.h:104-106 | each field of `CreateLiquid_output` is the value whose encoding is the bytes at its offset |
| VliquidStruct.AddLiquidInput.Encode | vliquidStruct.h:108-111 | `AddLiquid_input` is 16 bytes, each field's bytes at its offset (tokenContribution @0, liquidId @8), and `Decode` gives the record back |
| VliquidStruct.AddLiquidInput.Decode | vliquidStruct.h:108-111 | each field of `AddLiquid_input` is the value whose encoding is the bytes at its offset |
| VliquidStruct.AddLiquidOutput.Encode | vliquidStruct.h:113-115 | `AddLiquid_output` is 8 bytes, each field's bytes at its offset (addedContribution @0), and `Decode` gives the record back |
| VliquidStruct.AddLiquidOutput.Decode | vliquidStruct.h:113-115 | each field of `AddLiquid_output` is the value whose encoding is the bytes at its offset |
| VliquidStruct.RemoveLiquidInput.Encode | vliquidStruct.h:117-120 | `RemoveLiquid_input` is 16 bytes, each field's bytes at its offset (tokenContribution @0, liquidId @8), and `Decode` gives the record back |
| VliquidStruct.RemoveLiquidInput.Decode | vliquidStruct.h:117-120 | each field of `RemoveLiquid_input` is the value whose encoding is the bytes at its offset |
| VliquidStruct.RemoveLiquidOutput.Encode | vliquidStruct.h:122-124 | `RemoveLiquid_output` is 8 bytes, each field's bytes at its offset (removedContribution @0), and `Decode` gives the record back |
| VliquidStruct.RemoveLiquidOutput.Decode | vliquidStruct.h:122-124 | each field of `RemoveLiquid_output` is the value whose encoding is the bytes at its offset |
| VliquidStruct.SwapToQUInput.Encode | vliquidStruct.h:126-130 | `SwapToQU_input` is 64 bytes, each field's bytes at its offset (liquidId @0, inputTokenInfo @8, inputAmount @56), and `Decode` gives the record back |
| VliquidStruct.SwapToQUInput.Decode | vliquidStruct.h:126-130 | each field of `SwapToQU_input` is the value whose encoding is the bytes at its offset |
| VliquidStruct.SwapToQUOutput.Encode | vliquidStruct.h:132-134 | `SwapToQU_output` is 8 bytes, each field's bytes at its offset (quAmount @0), and `Decode` gives the record back |
| VliquidStruct.SwapToQUOutput.Decode | vliquidStruct.h:132-134 | each field of `SwapToQU_output` is the value whose encoding is the bytes at its offset |
| VliquidStruct.SwapFromQUInput.Encode | vliquidStruct.h:136-140 | `SwapFromQU_input` is 64 bytes, each field's bytes at its offset (liquidId @0, outputTokenInfo @8, quAmount @56), and `Decode` gives the record back |
| VliquidStruct.SwapFromQUInput.Decode | vliquidStruct.h:136-140 | each field of `SwapFromQU_input` is the value whose encoding is the bytes at its offset |
| VliquidStruct.SwapFromQUOutput.Encode | vliquidStruct.h:142-144 | `SwapFromQU_output` is 8 bytes, each field's bytes at its offset (outputAmount @0), and `Decode` gives the record back |
| VliquidStruct.SwapFromQUOutput.Decode | vliquidStruct.h:142-144 | each field of `SwapFromQU_output` is the value whose encoding is the bytes at its offset |
| VliquidStruct.SwapToQwalletInput.Encode | vliquidStruct.h:146-150 | `SwapToQwallet_input` is 64 bytes, each field's bytes at its offset (liquidId @0, inputTokenInfo @8, inputAmount @56), and `Decode` gives the record back |
| VliquidStruct.SwapToQwalletInput.Decode | vliquidStruct.h:146-150 | each field of `SwapToQwallet_input` is the value whose encoding is the bytes at its offset |
| VliquidStruct.SwapToQwalletOutput.Encode | vliquidStruct.h:152-155 | `SwapToQwallet_output` is 16 bytes, each field's bytes at its offset (qwalletAmount @0, quAmount @8), and `Decode` gives the record back |
| VliquidStruct.SwapToQwalletOutput.Decode | vliquidStruct.h:152-155 | each field of `SwapToQwallet_output` is the value whose encoding is the bytes at its offset |
| VliquidStruct.SwapFromQwalletInput.Encode | vliquidStruct.h:157-161 | `SwapFromQwallet_input` is 64 bytes, each field's bytes at its offset (liquidId @0, outputTokenInfo @8, qwalletAmount @56), and `Decode` gives the record back |
| VliquidStruct.SwapFromQwalletInput.Decode | vliquidStruct.h:157-161 | each field of `SwapFromQwallet_input` is the value whose encoding is the bytes at its offset |
| VliquidStruct.SwapFromQwalletOutput.Encode | vliquidStruct.h:163-166 | `SwapFromQwallet_output` is 16 bytes, each field's bytes at its offset (outputAmount @0, quAmount @8), and `Decode` gives the record back |
| VliquidStruct.SwapFromQwalletOutput.Decode | vliquidStruct.h:163-166 | each field of `SwapFromQwallet_output` is the value whose encoding is the bytes at its offset |
| VliquidStruct.SwapQUToQwalletInput.Encode | vliquidStruct.h:168-171 | `SwapQUToQwallet_input` is 16 bytes, each field's bytes at its offset (liquidId @0, quAmount @8), and `Decode` gives the record back |
| VliquidStruct.SwapQUToQwalletInput.Decode | vliquidStruct.h:168-171 | each field of `SwapQUToQwallet_input` is the value whose encoding is the bytes at its offset |
| VliquidStruct.SwapQUToQwalletOutput.Encode | vliquidStruct.h:173-175 | `SwapQUToQwallet_output` is 8 bytes, each field's bytes at its offset (qwalletAmount @0), and `Decode` gives the record back |
| VliquidStruct.SwapQUToQwalletOutput.Decode | vliquidStruct.h:173-175 | each field of `SwapQUToQwallet_output` is the value whose encoding is the bytes at its offset |
| VliquidStruct.SwapQwalletToQUInput.Encode | vliquidStruct.h:177-180 | `SwapQwalletToQU_input` is 16 bytes, each field's bytes at its offset (liquidId @0, qwalletAmount @8), and `Decode` gives the record back |
| VliquidStruct.SwapQwalletToQUInput.Decode | vliquidStruct.h:177-180 | each field of `SwapQwalletToQU_input` is the value whose encoding is the bytes at its offset |
| VliquidStruct.SwapQwalletToQUOutput.Encode | vliquidStruct.h:182-184 | `SwapQwalletToQU_output` is 8 bytes, each field's bytes at its offset (quAmount @0), and `Decode` gives the record back |
| VliquidStruct.SwapQwalletToQUOutput.Decode | vliquidStruct.h:182-184 | each field of `SwapQwalletToQU_output` is the value whose encoding is the bytes at its offset |
| VliquidStruct.SingleSwapInput.Encode | vliquidStruct.h:186-191 | `SingleSwap_input` is 112 bytes, each field's bytes at its offset (liquidId @0, inputTokenInfo @8, outputTokenInfo @56, inputAmount @104), and `Decode` gives the record back |
| VliquidStruct.SingleSwapInput.Decode | vliquidStruct.h:186-191 | each field of `SingleSwap_input` is the value whose encoding is the bytes at its offset |
| VliquidStruct.SingleSwapOutput.Encode | vliquidStruct.h:193-197 | `SingleSwap_output` is 24 bytes, each field's bytes at its offset (outputAmount @0, outputQwalletAmount @8, outputQuAmount @16), and `Decode` gives the record back |
| VliquidStruct.SingleSwapOutput.Decode | vliquidStruct.h:193-197 | each field of `SingleSwap_output` is the value whose encoding is the bytes at its offset |
| VliquidStruct.CrossSwapInput.Encode | vliquidStruct.h:199-205 | `CrossSwap_input` is 120 bytes, each field's bytes at its offset (liquidIdA @0, inputTokenInfoA @8, inputAmountA @56, liquidIdB @64, outputTokenInfoB @72), and `Decode` gives the record back |
| VliquidStruct.CrossSwapInput.Decode | vliquidStruct.h:199-205 | each field of `CrossSwap_input` is the value whose encoding is the bytes at its offset |
| VliquidStruct.CrossSwapOutput.Encode | vliquidStruct.h:207-211 | `CrossSwap_output` is 24 bytes, each field's bytes at its offset (outputAmountB @0, outputQwalletAmount @8, outputQuAmount @16), and `Decode` gives the record back |
| VliquidStruct.CrossSwapOutput.Decode | vliquidStruct.h:207-211 | each field of `CrossSwap_output` is the value whose encoding is the bytes at its offset |
| VliquidStruct.InitializeStakingPoolInput.Encode | vliquidStruct.h:213-216 | `InitializeStakingPool_input` is 56 bytes, each field's bytes at its offset (liquidId @0, bonusTokenInfo @8), and `Decode` gives the record back |
| VliquidStruct.InitializeStakingPoolInput.Decode | vliquidStruct.h:213-216 | each field of `InitializeStakingPool_input` is the value whose encoding is the bytes at its offset |
| VliquidStruct.InitializeStakingPoolOutput.Encode | vliquidStruct.h:218-220 | `InitializeStakingPool_output` is 1 bytes, each field's bytes at its offset (success @0), and `Decode` gives the record back |
| VliquidStruct.InitializeStakingPoolOutput.Decode | vliquidStruct.h:218-220 | each field of `InitializeStakingPool_output` is the value whose encoding is the bytes at its offset |
| VliquidStruct.DepositeBonusTokenInput.Encode | vliquidStruct.h:222-225 | `DepositeBonusToken_input` is 16 bytes, each field's bytes at its offset (liquidId @0, bonusTokenAmount @8), and `Decode` gives the record back |
| VliquidStruct.DepositeBonusTokenInput.Decode | vliquidStruct.h:222-225 | each field of `DepositeBonusToken_input` is the value whose encoding is the bytes at its offset |
| VliquidStruct.DepositeBonusTokenOutput.Encode | vliquidStruct.h:227-229 | `DepositeBonusToken_output` is 8 bytes, each field's bytes at its offset (depositedBonusTokenAmount @0), and `Decode` gives the record back |
| VliquidStruct.DepositeBonusTokenOutput.Decode | vliquidStruct.h:227-229 | each field of `DepositeBonusToken_output` is the value whose encoding is the bytes at its offset |
| VliquidStruct.StakeInput.Encode | vliquidStruct.h:231-234 | `Stake_input` is 16 bytes, each field's bytes at its offset (liquidId @0, lpAmount @8), and `Decode` gives the record back |
| VliquidStruct.StakeInput.Decode | vliquidStruct.h:231-234 | each field of `Stake_input` is the value whose encoding is the bytes at its offset |
| VliquidStruct.StakeOutput.Encode | vliquidStruct.h:236-238 | `Stake_output` is 8 bytes, each field's bytes at its offset (stakedLpAmount @0), and `Decode` gives the record back |
| VliquidStruct.StakeOutput.Decode | vliquidStruct.h:236-238 | each field of `Stake_output` is the value whose encoding is the bytes at its offset |
| VliquidStruct.UnstakeInput.Encode | vliquidStruct.h:240-243 | `Unstake_input` is 16 bytes, each field's bytes at its offset (liquidId @0, lpAmount @8), and `Decode` gives the record back |
| VliquidStruct.UnstakeInput.Decode | vliquidStruct.h:240-243 | each field of `Unstake_input` is the value whose encoding is the bytes at its offset |
| VliquidStruct.UnstakeOutput.Encode | vliquidStruct.h:245-247 | `Unstake_output` is 8 bytes, each field's bytes at its offset (unstakedLpAmount @0), and `Decode` gives the record back |
| VliquidStruct.UnstakeOutput.Decode | vliquidStruct.h:245-247 | each field of `Unstake_output` is the value whose encoding is the bytes at its offset |
| VliquidStruct.IssueAssetInput.Encode | vliquidStruct.h:249-255 | `IssueAsset_input` is 32 bytes, each field's bytes at its offset (name @0, numberOfUnits @8, unitOfMeasurement @16, numberOfDecimalPlaces @24, padding @25..32) (padding written as zeros), and `Decode` gives the record back |
| VliquidStruct.IssueAssetInput.Decode | vliquidStruct.h:249-255 | each field of `IssueAsset_input` is the value whose encoding is the bytes at its offset; padding bytes are ignored |
| Vliquid.QueryPacket | vliquid.cpp:44-56 | a query packet is the header, then the envelope, then the input, and is exactly as long as those three together |
| Vliquid.QueryPacketLayout | vliquid.cpp:50-56 | the packet's header declares the packet's own length and the request type; the envelope names contract 9, the operation and the input's length; the input closes the packet |
| Vliquid.CopyInto | vliquid.cpp:60-63 | `memcpy` into the packet: the copied range becomes the source bytes, and the bytes before and after it are unchanged |
| Vliquid.PrefixGrows | vliquid.cpp:60-63 | consecutive `memcpy`s into adjacent fields extend the filled prefix of the packet by each field in turn |
| Vliquid.WriteQueryPrefix | vliquid.cpp:50-56 | after `setSize`, the dejavu, `setType` and the envelope fields, the packet starts with the header of its own length and request type, followed by the envelope for contract 9 with the given operation and input size, and the bytes after them are unchanged |
| Vliquid.BuildBalanceOfMicroTokenQuery | vliquid.cpp:44-65 | the bytes sent are the query packet of operation 2 whose input holds the issuer's key, the first 8 bytes of the asset name and the first 32 bytes of `owner` unconverted |
| Vliquid.BuildMicroTokenAllowanceQuery | vliquid.cpp:99-132 | the bytes sent are the query packet of operation 1 whose input holds the keys of issuer, recipient and spender and the first 8 bytes of the asset name |
| Vliquid.SendsDeclaredSize | vliquid.cpp:50-65 | a packet laid out as header, envelope and input is the query packet, and its header's declared size is its whole length, so `sendData(&packet, header.size())` sends all of it and no more |
| Vliquid.HeaderAt | vliquid.cpp:76 | the header read at the cursor is `headerLen` bytes of the buffer |
| Vliquid.WellFormedFrom | vliquid.cpp:74-88 | what the loop relies on without checking: at every cursor it reaches inside the buffer, a whole header is left and declares a non-zero size |
| Vliquid.Frames | vliquid.cpp:74-88 | every cursor the loop visits lies at or after its start and is followed by a whole header inside the buffer |
| Vliquid.EnoughDataAsWritten | vliquid.cpp:78 | the room test as written: `remaining - sizeof(header)` taken modulo 2^64, as `size_t` arithmetic does, compared with `sizeof(output)` |
| Vliquid.EnoughData | vliquid.cpp:78 | the room test as intended: the rest of the buffer holds a header and an output record |
| Vliquid.EnoughDataAsWrittenWraps | vliquid.cpp:78 | with fewer than `headerLen` bytes left, the `size_t` test as written passes although not even the header fits |
| Vliquid.EnoughDataAsWrittenExample | vliquid.cpp:78 | 4 bytes left, an 8-byte header and an 8-byte output pass the test as written and fail the intended one |
| Vliquid.EnoughDataAgrees | vliquid.cpp:147 | whenever a whole header is left, the test as written holds exactly when the intended test does |
| Vliquid.Matches | vliquid.cpp:77-78 | a frame is copied when its header's type is the response type and the intended room test holds for the rest of the buffer (not the frame's declared size) |
| Vliquid.RecordAt | vliquid.cpp:79-80 | the output copied from a matching frame is the `sizeof(output)` bytes right after its header |
| Vliquid.LastMatch | vliquid.cpp:72-89 | the result after visiting a list of frames is always `sizeof(output)` bytes long |
| Vliquid.LastMatchStep | vliquid.cpp:77-88 | a matching frame replaces the result with its record; a frame of another type, or one with too little buffer left, leaves the result unchanged |
| Vliquid.FramesStep | vliquid.cpp:88 | stepping over a frame by its declared size keeps the rest of the walk well formed, and the walk is this frame followed by the walk from the next one |
| Vliquid.NoMatchGivesZeros | vliquid.cpp:72-73 | when no visited frame matches, the result is the all-zero record |
| Vliquid.LastMatchWins | vliquid.cpp:74-89 | when frame `k` matches and no later frame does, its record lies inside the buffer and is the result |
| Vliquid.LastMatchIsZerosOrARecord | vliquid.cpp:72-89 | the result is either all zeros or the record of some matching frame |
| Vliquid.ScanResult | vliquid.cpp:66-89 | scanning a whole buffer yields `sizeof(output)` bytes |
| Vliquid.ScanFromIsLastMatch | vliquid.cpp:74-89 | carrying on the scan from a cursor with the last match so far gives the last match over the frames seen followed by the rest of the walk |
| Vliquid.ScanFromStart | vliquid.cpp:72-89 | the scan from cursor 0 with a zeroed result is the last matching frame's record of the whole walk, or zeros |
| Vliquid.ScanResponses | vliquid.cpp:135-160 | for a well-formed buffer, the loop with the room test as written terminates, reads only inside the buffer, and leaves exactly the record of the last matching frame, or zeros |
| Vliquid.CheckedFrames | vliquid.cpp:74-88 | the cursors a scan that checks its input visits: from the start, frame after frame by declared size, stopping at the end, at a fragment shorter than a header, or at a header of declared size 0; every cursor has a whole header inside the buffer |
| Vliquid.CheckedFramesAgree | vliquid.cpp:74-88 | on a well-formed buffer the checked walk visits exactly the cursors the loop as written visits |
| Vliquid.CheckedStep | vliquid.cpp:76-88 | one more frame of the checked walk: the visited cursors plus the rest of the walk are unchanged, and a matching frame replaces the last match with its record while any other frame leaves it |
| Vliquid.LastMatchZerosOrRecord | vliquid.cpp:72-88 | the last match over any cursors with whole headers is zeros or the record of some matching frame of the buffer |
| Vliquid.CheckedScanStops | vliquid.cpp:74 | where the checked walk stops, the checked scan keeps the result it holds |
| Vliquid.CheckedScanStep | vliquid.cpp:76-88 | where the checked walk goes on, the checked scan takes a matching frame's record, or keeps its result, and moves on by the declared size |
| Vliquid.CheckedScanFromIsLastMatch | vliquid.cpp:74-88 | carrying on the checked scan from a cursor with the last match so far gives the last match over the frames seen followed by the rest of the checked walk |
| Vliquid.CheckedResult | vliquid.cpp:72-88 | the last match over the checked walk is zeros or a matching frame's record, and on a well-formed buffer it is the result of the loop as written |
| Vliquid.ScanResponsesChecked | vliquid.cpp:144-160 | the loop with the checks it lacks ends on every buffer and leaves exactly the record of the last matching frame among the cursors of the checked walk, or zeros; that is zeros or some matching frame's record, and on a well-formed buffer it is what the loop as written leaves |
| Vliquid.CursorAfter | vliquid.cpp:88 | the cursor after any number of passes never moves backwards |
| Vliquid.ZeroSizeStalls | vliquid.cpp:159 | a header of declared size 0 keeps the cursor at the same frame inside the buffer after any number of passes, so the loop as written never ends, and such a buffer is not well formed |
| Vliquid.BalanceOfMicroToken | vliquid.cpp:41-91 | the balance query sends its packet and reports the `uint64_t` read from the last matching frame as a `ConvertToMicroToken_output`, which is 0 when no frame matches |
| Vliquid.MicroTokenAllowance | vliquid.cpp:94-162 | the allowance query sends its packet and reports the `uint64_t` read from the last matching frame, which is 0 when no frame matches |

## Left out

- The connection: `make_qc`, `sendData` and `receiveDataAll` are I/O. The bytes handed to `sendData` are a result, and the buffer filled by `receiveDataAll` is the parameter `received`.
- `getPublicKeyFromIdentity` is code this client calls but does not define. It is the function parameter `keyOf`, returning 32 bytes.
- `randomizeDejavu` is randomness. The dejavu is the parameter `dejavu`.
- `LOG` output is diagnostics only. This includes the final print of the balance or allowance, which the model returns instead.
- `RequestResponseHeader`, `RequestContractFunction` and `RespondContractFunction` are defined in `structs.h`, which is not part of this model. Their lengths, writers, readers and type codes are the fields of `Framing`.
- Header and envelope padding: `Framing.Valid` assumes that header plus envelope end on an 8-byte boundary. Under that assumption the packet struct has no padding before the input record.
- `vliquid.h` only declares functions. The transaction entry points, their signing and tick scheduling, and `parseTokensString` have no bodies here and are not part of this model. The same goes for the procedure numbers 1 to 16 (vliquid.cpp:24-39), `VLIQUID_EXAM_PUBLIC` and `VLIQUID_CONTRACTID`, which only those entry points would use.
- The contract's own behaviour (swap pricing, staking, liquidity) runs on the node and is not visible to the client.
- Padding bytes: the C++ leaves them indeterminate. The encoders write zeros, and the decoders ignore them.
- A `bool` byte other than 0 or 1 is undefined behaviour in C++. `Decode` reads any non-zero byte as true.
- `char numberOfDecimalPlaces` is taken to be signed, as on x86-64 Linux.
- Vliquid.ScanResponses: requires `WellFormedFrom`, which the C++ relies on without checking. Under it, every visited cursor has a whole header left, and every declared size is positive. On other buffers the C++ loops forever (`Vliquid.ZeroSizeStalls`) or reads a header past the end of the buffer; `Vliquid.ScanResponsesChecked` is the loop that stops there instead.
- Vliquid.ScanResponses: `recvByte` and `ptr` are `int` in the C++. Their overflow, for buffers of 2^31 bytes or more or frame sizes that push `ptr` past `INT_MAX`, is not modelled; the buffer is required to be shorter than 2^64.
- Vliquid.BuildBalanceOfMicroTokenQuery: requires at least 8 bytes of `assetName` and 32 of `owner`. The C++ copies that many bytes from the argument pointers whatever their length, and reading past a shorter C string is undefined behaviour.
- Vliquid.BuildMicroTokenAllowanceQuery: requires at least 8 bytes of `assetName`, for the same reason.
- Both queries require the packet length to fit the header's size field (`maxSize`). The model assumes the header's size field can hold these packet lengths (under 400 bytes); the header's definition is not part of this model.

## Findings

| source | as written | input that shows it | evidently intended | confidence | as-written member | corrected member |
|---|---|---|---|---|---|---|
| vliquid.cpp:78 (and vliquid.cpp:147) | `recvByte - ptr - sizeof(RequestResponseHeader) >= sizeof(output)` is computed in unsigned `size_t`, so with fewer than `sizeof(RequestResponseHeader)` bytes left the difference wraps to nearly 2^64 and the test passes | a buffer ending in a 4-byte fragment whose type byte is the response type, with an 8-byte header and an 8-byte output: the test passes and `result = *output` copies bytes past the buffer's end | copy only when the buffer holds a header and an output record after the cursor (`remaining >= sizeof(header) + sizeof(output)`) | not executed | Vliquid.EnoughDataAsWrittenWraps | Vliquid.LastMatchWins |
| vliquid.cpp:88 (and vliquid.cpp:159) | `ptr += header->size()` moves the cursor by whatever size the header declares, and the header is read at `data + ptr` without checking that a whole header is left | a buffer whose first frame has a whole header declaring size 0: the cursor stays at 0 and the loop never ends | stop the scan at a header that declares size 0 or at a fragment shorter than a header | not executed | Vliquid.ZeroSizeStalls | Vliquid.ScanResponsesChecked |

The scanner method keeps the test as written. `Vliquid.EnoughDataAgrees` shows it equals the intended test at every cursor a well-formed buffer reaches. The specification `Vliquid.Matches` uses the intended test, and `Vliquid.LastMatchWins` proves that the record it selects lies inside the buffer.

The queries keep the loop as written (`Vliquid.ScanResponses`) under the well-formedness it relies on. `Vliquid.ScanResponsesChecked` adds the two missing checks, ends on every buffer, and is proved to agree with it on every well-formed buffer.
