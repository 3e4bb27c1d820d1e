/** `CodingIncidentTool.ToBlob` and `CodingIncidentTool.FetchMistakesAndUpdateInstructions`:
    the incident log kept in one append blob.  The remote blob is abstracted to its
    content, `None` while it does not exist.  Of the credential a call builds only
    the choice matters, because it decides which settings are needed: the flag
    `runningLocally` is the answer of `IsRunningLocally` (`Hosting.IsRunningLocally`
    in the corrected form). */
module IncidentBlob {
  import opened Wrappers
  import opened Text
  import opened AppConfig
  import opened Utf8

  /** The append blob: absent, or its bytes. */
  type Blob = Option<seq<byte>>

  const IncidentLogFilename := "mcp_blob_server_coding_incident_log.jsonl"

  /** The largest block one `AppendBlockAsync` call may carry: 4 MiB. */
  const MaxAppendBlock := 4 * 1024 * 1024

  const NothingToPush := "No incident log provided. Nothing to push."
  const PushSucceeded := "Successfully pushed coding incidents to blob storage (" + IncidentLogFilename + ")."
  const PushErrorPrefix := "ERROR \U{2013} couldn't push logs to blob: "
  const FetchErrorPrefix := "ERROR \U{2013} couldn't fetch coding incidents: "
  const NoIncidents := "No coding incidents found in blob storage or local cache. No updates needed for instruction files."
  const EmptyLog := "Coding incidents log file exists but is empty. No updates needed for instruction files."

  /** The text put before the downloaded log.  The source writes it as the
      verbatim literal `@"""…"""`, so it starts and ends with a double quote and
      keeps the source's line breaks and indentation. */
  const FetchedPreamble :=
    "\"\n"
    + "                Coding incidents fetched successfully. \n"
    + "                IMPORTANT: Instruction to the agent - kindly do this immediately -  patch the active rule file \n"
    + "                (e.g. github.copilot.chat.codeGeneration.useInstructionFiles in GitHub Copilot or .cursor/rules/xx.mdc or .cursorrules) \n"
    + "                with a new guideline that with a short lesson describing what you should consider going forward. For example, 'when adding Tailwind classes, prefer px\U{2011} to pl\U{2011}/pr\U{2011} to avoid v4/v3 mix\U{2011}ups'.\n"
    + "                Here are the incidents: \n"
    + "                \""

  const StorageAccountMissing := "Storage account name not configured"
  const ContainerMissing := "Container name not configured"
  const TenantMissing := "Tenant ID not configured"
  const ClientIdMissing := "Client ID not configured"
  const ClientSecretMissing := "Client Secret not configured"

  /** The settings both tools read before touching storage, in the order they read
      them: account, container, tenant, client id and, for the local client-secret
      credential, the secret.  The message of the first one missing. */
  function MissingSetting(config: Configuration, local: bool): (r: Option<string>)
    ensures r.None? <==>
      && Setting(config, StorageAccountNameKey).Some?
      && Setting(config, ContainerNameKey).Some?
      && Setting(config, TenantIdKey).Some?
      && Setting(config, ClientIdKey).Some?
      && (local ==> Setting(config, ClientSecretKey).Some?)
    ensures r.Some? ==> r.value in {StorageAccountMissing, ContainerMissing, TenantMissing,
                                    ClientIdMissing, ClientSecretMissing}
    ensures r == Some(ClientSecretMissing) ==> local
  {
    if Setting(config, StorageAccountNameKey).None? then Some(StorageAccountMissing)
    else if Setting(config, ContainerNameKey).None? then Some(ContainerMissing)
    else if Setting(config, TenantIdKey).None? then Some(TenantMissing)
    else if Setting(config, ClientIdKey).None? then Some(ClientIdMissing)
    else if local && Setting(config, ClientSecretKey).None? then Some(ClientSecretMissing)
    else None
  }

  // ---------------------------------------------------------------------------
  // The append loop.

  function CeilDiv(n: nat, d: nat): nat
    requires d > 0
  {
    (n + d - 1) / d
  }

  /** The bytes of the blocks, in order. */
  function Flatten(blocks: seq<seq<byte>>): seq<byte>
    decreases |blocks|
  {
    if blocks == [] then [] else Flatten(blocks[..|blocks| - 1]) + blocks[|blocks| - 1]
  }

  function Min(a: int, b: int): int {
    if a <= b then a else b
  }

  lemma CeilDivBetween(n: nat, k: nat)
    requires (k - 1) * MaxAppendBlock < n <= k * MaxAppendBlock
    ensures CeilDiv(n, MaxAppendBlock) == k
  {
  }

  /** `block` is the `i`-th block the loop cuts from `content`. */
  predicate IsBlock(content: seq<byte>, block: seq<byte>, i: nat) {
    && |block| == Min(MaxAppendBlock, |content| - i * MaxAppendBlock)
    && i * MaxAppendBlock + |block| <= |content|
    && block == content[i * MaxAppendBlock .. i * MaxAppendBlock + |block|]
  }

  /** `blocks` are the first blocks the loop cuts from `content`, in order. */
  predicate AllBlocks(content: seq<byte>, blocks: seq<seq<byte>>) {
    forall i :: 0 <= i < |blocks| ==> IsBlock(content, blocks[i], i)
  }

  /** The loop's state after some turns: `offset` is the next multiple of M, the
      blocks cut so far are the first ones, they spell the content up to
      `offset`, and the blob has grown by exactly their bytes. */
  predicate Progress(existing: seq<byte>, content: seq<byte>, blob: seq<byte>, blocks: seq<seq<byte>>, offset: int) {
    && offset == |blocks| * MaxAppendBlock
    && (offset == 0 || offset - MaxAppendBlock < |content|)
    && AllBlocks(content, blocks)
    && Flatten(blocks) == content[..Min(offset, |content|)]
    && blob == existing + Flatten(blocks)
  }

  /** The `for` loop of `ToBlob`: the content is cut at offsets 0, M, 2M, … into
      blocks of `min(M, Length - offset)` bytes, M being 4 MiB, and each block is
      appended to the blob in turn.  The blocks are all non-empty and at most M
      long, all but the last exactly M, and they tile the content with no gap and
      no overlap; there are ceil(Length / M) of them. */
  method AppendInBlocks(existing: seq<byte>, content: seq<byte>) returns (blob: seq<byte>, blocks: seq<seq<byte>>)
    ensures blob == existing + content
    ensures |blocks| == CeilDiv(|content|, MaxAppendBlock)
    ensures forall i :: 0 <= i < |blocks| ==> 1 <= |blocks[i]| <= MaxAppendBlock
    ensures forall i :: 0 <= i < |blocks| - 1 ==> |blocks[i]| == MaxAppendBlock
    ensures forall i :: 0 <= i < |blocks| ==>
      i * MaxAppendBlock + |blocks[i]| <= |content|
      && blocks[i] == content[i * MaxAppendBlock .. i * MaxAppendBlock + |blocks[i]|]
    ensures Flatten(blocks) == content
    ensures |Windows(|content|, 0)| == |blocks|
    ensures forall i :: 0 <= i < |blocks| ==> Windows(|content|, 0)[i] == (i * MaxAppendBlock, |blocks[i]|)
  {
    blob := existing;
    blocks := [];
    var offset := 0;
    while offset < |content|
      invariant 0 <= offset
      invariant Progress(existing, content, blob, blocks, offset)
      decreases |content| - offset
    {
      var block := content[offset .. offset + Min(MaxAppendBlock, |content| - offset)];
      NextBlock(existing, content, blob, blocks, offset);
      blob := blob + block;
      blocks := blocks + [block];
      offset := offset + MaxAppendBlock;
    }
    LoopExit(existing, content, blob, blocks, offset);
  }

  /** One turn of the loop: appending the block cut at `offset` keeps `Progress`. */
  lemma NextBlock(existing: seq<byte>, content: seq<byte>, blob: seq<byte>, blocks: seq<seq<byte>>, offset: nat)
    requires offset < |content|
    requires Progress(existing, content, blob, blocks, offset)
    ensures var block := content[offset .. offset + Min(MaxAppendBlock, |content| - offset)];
      Progress(existing, content, blob + block, blocks + [block], offset + MaxAppendBlock)
  {
    var block := content[offset .. offset + Min(MaxAppendBlock, |content| - offset)];
    NextIsBlock(content, blocks, offset);
    NextFlatten(existing, content, blocks, offset);
  }

  lemma NextIsBlock(content: seq<byte>, blocks: seq<seq<byte>>, offset: nat)
    requires offset == |blocks| * MaxAppendBlock < |content|
    requires AllBlocks(content, blocks)
    ensures AllBlocks(content, blocks + [content[offset .. offset + Min(MaxAppendBlock, |content| - offset)]])
  {
    var block := content[offset .. offset + Min(MaxAppendBlock, |content| - offset)];
    assert IsBlock(content, block, |blocks|);
    forall i | 0 <= i < |blocks| + 1 ensures IsBlock(content, (blocks + [block])[i], i) {
      if i < |blocks| {
        assert (blocks + [block])[i] == blocks[i];
      }
    }
  }

  lemma NextFlatten(existing: seq<byte>, content: seq<byte>, blocks: seq<seq<byte>>, offset: nat)
    requires offset < |content|
    requires Flatten(blocks) == content[..offset]
    ensures var block := content[offset .. offset + Min(MaxAppendBlock, |content| - offset)];
      && existing + Flatten(blocks) + block == existing + Flatten(blocks + [block])
      && Flatten(blocks + [block]) == content[..Min(offset + MaxAppendBlock, |content|)]
  {
    var block := content[offset .. offset + Min(MaxAppendBlock, |content| - offset)];
    assert (blocks + [block])[..|blocks|] == blocks;
    assert content[..offset] + block == content[..offset + |block|];
  }

  /** When the loop stops, the blob holds all of the content and the blocks tile it. */
  lemma LoopExit(existing: seq<byte>, content: seq<byte>, blob: seq<byte>, blocks: seq<seq<byte>>, offset: int)
    requires offset >= |content|
    requires Progress(existing, content, blob, blocks, offset)
    ensures blob == existing + content
    ensures Flatten(blocks) == content
    ensures |blocks| == CeilDiv(|content|, MaxAppendBlock)
    ensures forall i :: 0 <= i < |blocks| ==> 1 <= |blocks[i]| <= MaxAppendBlock
    ensures forall i :: 0 <= i < |blocks| - 1 ==> |blocks[i]| == MaxAppendBlock
    ensures forall i :: 0 <= i < |blocks| ==>
      i * MaxAppendBlock + |blocks[i]| <= |content|
      && blocks[i] == content[i * MaxAppendBlock .. i * MaxAppendBlock + |blocks[i]|]
    ensures |Windows(|content|, 0)| == |blocks|
    ensures forall i :: 0 <= i < |blocks| ==> Windows(|content|, 0)[i] == (i * MaxAppendBlock, |blocks[i]|)
  {
    assert content[..Min(offset, |content|)] == content;
    BlocksTile(content, blocks);
  }

  /** Blocks cut at every multiple of M below the length: their count, sizes and
      windows. */
  lemma BlocksTile(content: seq<byte>, blocks: seq<seq<byte>>)
    requires (|blocks| - 1) * MaxAppendBlock < |content| <= |blocks| * MaxAppendBlock
    requires AllBlocks(content, blocks)
    ensures |blocks| == CeilDiv(|content|, MaxAppendBlock)
    ensures forall i :: 0 <= i < |blocks| ==> 1 <= |blocks[i]| <= MaxAppendBlock
    ensures forall i :: 0 <= i < |blocks| - 1 ==> |blocks[i]| == MaxAppendBlock
    ensures forall i :: 0 <= i < |blocks| ==>
      i * MaxAppendBlock + |blocks[i]| <= |content|
      && blocks[i] == content[i * MaxAppendBlock .. i * MaxAppendBlock + |blocks[i]|]
    ensures |Windows(|content|, 0)| == |blocks|
    ensures forall i :: 0 <= i < |blocks| ==> Windows(|content|, 0)[i] == (i * MaxAppendBlock, |blocks[i]|)
  {
    CeilDivBetween(|content|, |blocks|);
    BlocksBounded(content, blocks);
    BlocksAreWindows(content, blocks);
    forall i | 0 <= i < |blocks|
      ensures i * MaxAppendBlock + |blocks[i]| <= |content|
      ensures blocks[i] == content[i * MaxAppendBlock .. i * MaxAppendBlock + |blocks[i]|]
    {
      assert IsBlock(content, blocks[i], i);
    }
  }

  lemma BlocksAreWindows(content: seq<byte>, blocks: seq<seq<byte>>)
    requires |blocks| == CeilDiv(|content|, MaxAppendBlock)
    requires forall i :: 0 <= i < |blocks| ==> IsBlock(content, blocks[i], i)
    ensures |Windows(|content|, 0)| == |blocks|
    ensures forall i :: 0 <= i < |blocks| ==> Windows(|content|, 0)[i] == (i * MaxAppendBlock, |blocks[i]|)
  {
    WindowsShape(|content|, 0);
    forall i | 0 <= i < |blocks| ensures Windows(|content|, 0)[i] == (i * MaxAppendBlock, |blocks[i]|) {
      assert IsBlock(content, blocks[i], i);
    }
  }

  lemma BlocksBounded(content: seq<byte>, blocks: seq<seq<byte>>)
    requires (|blocks| - 1) * MaxAppendBlock < |content|
    requires forall i :: 0 <= i < |blocks| ==> IsBlock(content, blocks[i], i)
    ensures forall i :: 0 <= i < |blocks| ==> 1 <= |blocks[i]| <= MaxAppendBlock
    ensures forall i :: 0 <= i < |blocks| - 1 ==> |blocks[i]| == MaxAppendBlock
  {
    forall i | 0 <= i < |blocks|
      ensures 1 <= |blocks[i]| <= MaxAppendBlock
      ensures i < |blocks| - 1 ==> |blocks[i]| == MaxAppendBlock
    {
      assert IsBlock(content, blocks[i], i);
      assert i * MaxAppendBlock <= (|blocks| - 1) * MaxAppendBlock;
      if i < |blocks| - 1 {
        assert (i + 1) * MaxAppendBlock <= (|blocks| - 1) * MaxAppendBlock;
      }
    }
  }

  // ---------------------------------------------------------------------------
  // The loop with the source's 32-bit `int` offset.

  const Int32Max := 0x7FFF_FFFF

  /** The most bytes a .NET byte array can hold (`Array.MaxLength`). */
  const MaxArrayLength := 0x7FFF_FFC7

  /** The largest multiple of M that is still an `int`: the last offset the loop
      can reach before `offset += M` wraps. */
  const LastOffset32 := 0x7FC0_0000

  /** Two's-complement wrap-around of unchecked 32-bit arithmetic. */
  function Wrap32(x: int): (r: int)
    ensures -0x8000_0000 <= r <= Int32Max
    ensures -0x8000_0000 <= x <= Int32Max ==> r == x
    ensures (r - x) % 0x1_0000_0000 == 0
  {
    (x + 0x8000_0000) % 0x1_0000_0000 - 0x8000_0000
  }

  /** One run of the loop as written: the (offset, length) windows it hands to
      `new MemoryStream(contentBytes, offset, len)` before it stops, and whether
      that constructor threw (it rejects a negative offset or length). */
  datatype LoopRun = LoopRun(windows: seq<(int, int)>, threw: bool)

  /** Every window is a non-empty range of the content of at most M bytes. */
  predicate WindowsWithin(windows: seq<(int, int)>, length: int) {
    forall w :: w in windows ==> 0 <= w.0 < length && 1 <= w.1 <= MaxAppendBlock && w.0 + w.1 <= length
  }

  function Run32(length: int, offset: int): (r: LoopRun)
    requires 0 <= length <= MaxArrayLength
    requires -0x8000_0000 <= offset <= Int32Max
    ensures WindowsWithin(r.windows, length)
    ensures r.windows != [] ==> r.windows[0].0 == offset
    decreases if offset < 0 then 0 else 0x8000_0000 - offset + 1
  {
    if !(offset < length) then LoopRun([], false)
    else
      var len := Min(MaxAppendBlock, Wrap32(length - offset));
      if offset < 0 || len < 0 then LoopRun([], true)
      else
        var next := Wrap32(offset + MaxAppendBlock);
        assert next < 0 || next == offset + MaxAppendBlock;
        var rest := Run32(length, next);
        LoopRun([(offset, len)] + rest.windows, rest.threw)
  }

  /** Reference windows with unbounded integers: the ones `AppendInBlocks` uses. */
  function Windows(length: nat, offset: nat): seq<(int, int)>
    decreases length - offset
  {
    if offset >= length then []
    else [(offset, Min(MaxAppendBlock, length - offset))] + Windows(length, offset + MaxAppendBlock)
  }

  /** From any offset the 32-bit loop can reach, it hands out exactly the
      reference windows, so every block is appended; it then throws precisely
      when the content is longer than `LastOffset32` bytes, because the offset
      after the last block wraps to a negative number that still passes the
      `offset < Length` test. */
  lemma {:induction false} Run32Windows(length: int, offset: int)
    requires 0 <= length <= MaxArrayLength
    requires 0 <= offset <= LastOffset32 && offset % MaxAppendBlock == 0
    ensures Run32(length, offset) == LoopRun(Windows(length, offset), offset < length && length > LastOffset32)
    decreases LastOffset32 - offset
  {
    if offset < length {
      if offset < LastOffset32 {
        Run32Windows(length, offset + MaxAppendBlock);
      } else {
        var next := Wrap32(offset + MaxAppendBlock);
        assert next == -0x8000_0000;
        assert Wrap32(length - next) < 0;
        assert Run32(length, next) == LoopRun([], true);
        assert Windows(length, offset + MaxAppendBlock) == [];
      }
    }
  }

  /** For content up to `LastOffset32` bytes the source's loop is exactly the
      unbounded one. */
  lemma Run32AgreesBelowLimit(length: int)
    requires 0 <= length <= LastOffset32
    ensures Run32(length, 0) == LoopRun(Windows(length, 0), false)
  {
    Run32Windows(length, 0);
  }

  /** Counterexample: 0x7FC00001 bytes, a length a byte array can have, make the
      source's loop throw after it has appended every byte of the content. */
  lemma Run32ThrowsAboveLimit()
    ensures Run32(0x7FC0_0001, 0).threw
    ensures Run32(0x7FC0_0001, 0).windows == Windows(0x7FC0_0001, 0)
  {
    Run32Windows(0x7FC0_0001, 0);
  }

  /** The reference windows cover the content exactly: their lengths add up. */
  lemma {:induction false} WindowsCover(length: nat, offset: nat)
    requires offset <= length
    ensures Total(Windows(length, offset)) == length - offset
    decreases length - offset
  {
    if offset < length {
      if offset + MaxAppendBlock <= length {
        WindowsCover(length, offset + MaxAppendBlock);
      } else {
        assert Windows(length, offset + MaxAppendBlock) == [];
      }
    }
  }

  /** The reference windows are the blocks of `AppendInBlocks`: the `i`-th starts
      at `offset + i * M` and is `min(M, length - start)` long, and there are
      ceil((length - offset) / M) of them. */
  lemma {:induction false} WindowsShape(length: nat, offset: nat)
    requires offset <= length
    ensures |Windows(length, offset)| == CeilDiv(length - offset, MaxAppendBlock)
    ensures forall i :: 0 <= i < |Windows(length, offset)| ==>
      Windows(length, offset)[i]
        == (offset + i * MaxAppendBlock, Min(MaxAppendBlock, length - offset - i * MaxAppendBlock))
    decreases length - offset
  {
    var w := Windows(length, offset);
    if offset < length {
      if offset + MaxAppendBlock <= length {
        WindowsShape(length, offset + MaxAppendBlock);
        var rest := Windows(length, offset + MaxAppendBlock);
        assert w == [(offset, Min(MaxAppendBlock, length - offset))] + rest;
        forall i | 1 <= i < |w|
          ensures w[i] == (offset + i * MaxAppendBlock, Min(MaxAppendBlock, length - offset - i * MaxAppendBlock))
        {
          assert w[i] == rest[i - 1];
          assert offset + MaxAppendBlock + (i - 1) * MaxAppendBlock == offset + i * MaxAppendBlock;
        }
        CeilDivStep(length - offset);
      } else {
        assert Windows(length, offset + MaxAppendBlock) == [];
        CeilDivBetween(length - offset, 1);
      }
    }
  }

  lemma CeilDivStep(n: nat)
    requires n >= MaxAppendBlock
    ensures CeilDiv(n, MaxAppendBlock) == CeilDiv(n - MaxAppendBlock, MaxAppendBlock) + 1
  {
  }

  function Total(windows: seq<(int, int)>): int {
    if windows == [] then 0 else windows[0].1 + Total(windows[1..])
  }

  // ---------------------------------------------------------------------------
  // The two tools.

  /** What a successful push leaves: the blob, created empty if it was absent,
      followed by the UTF-8 bytes of the log. */
  function Pushed(blob: Blob, incidentLog: string): Blob {
    Some(blob.GetOr([]) + Encode(incidentLog))
  }

  /** `ToBlob`.  A blank log is refused with no effect; a missing setting is
      reported as an error with no effect; otherwise the blob is created if absent
      and the log's bytes are appended in blocks of at most 4 MiB. */
  method ToBlob(config: Configuration, runningLocally: bool, blob: Blob, incidentLog: string)
    returns (message: string, after: Blob, blocks: seq<seq<byte>>)
    ensures IsNullOrWhiteSpace(incidentLog) ==>
      message == NothingToPush && after == blob && blocks == []
    ensures !IsNullOrWhiteSpace(incidentLog) && MissingSetting(config, runningLocally).Some? ==>
      message == PushErrorPrefix + MissingSetting(config, runningLocally).value
      && after == blob && blocks == []
    ensures message == PushSucceeded <==>
      !IsNullOrWhiteSpace(incidentLog) && MissingSetting(config, runningLocally).None?
    ensures message == PushSucceeded ==>
      && after == Pushed(blob, incidentLog)
      && Flatten(blocks) == Encode(incidentLog)
      && |blocks| == CeilDiv(|Encode(incidentLog)|, MaxAppendBlock)
      && (forall i :: 0 <= i < |blocks| ==> 1 <= |blocks[i]| <= MaxAppendBlock)
  {
    if IsNullOrWhiteSpace(incidentLog) {
      return NothingToPush, blob, [];
    }
    var missing := MissingSetting(config, runningLocally);
    if missing.Some? {
      assert PushErrorPrefix + missing.value != PushSucceeded by {
        assert (PushErrorPrefix + missing.value)[0] == 'E';
      }
      return PushErrorPrefix + missing.value, blob, [];
    }
    var existing := if blob.None? then [] else blob.value;
    var content := Encode(incidentLog);
    var appended;
    appended, blocks := AppendInBlocks(existing, content);
    return PushSucceeded, Some(appended), blocks;
  }

  /** `FetchMistakesAndUpdateInstructions`.  `decode` stands for reading the
      downloaded stream to its end with a `StreamReader`. */
  function FetchMistakes(config: Configuration, runningLocally: bool,
                         blob: Blob, decode: seq<byte> -> string): (r: string)
    ensures var missing := MissingSetting(config, runningLocally);
      missing.Some? ==> r == FetchErrorPrefix + missing.value
    ensures var missing := MissingSetting(config, runningLocally);
      missing.None? && blob.None? ==> r == NoIncidents
    ensures var missing := MissingSetting(config, runningLocally);
      missing.None? && blob.Some? && IsNullOrWhiteSpace(decode(blob.value)) ==> r == EmptyLog
    ensures var missing := MissingSetting(config, runningLocally);
      missing.None? && blob.Some? && !IsNullOrWhiteSpace(decode(blob.value)) ==>
        && |r| == |FetchedPreamble| + |decode(blob.value)|
        && r[..|FetchedPreamble|] == FetchedPreamble
        && r[|FetchedPreamble|..] == decode(blob.value)
  {
    match MissingSetting(config, runningLocally)
    case Some(message) => FetchErrorPrefix + message
    case None =>
      match blob
      case None => NoIncidents
      case Some(bytes) =>
        var incidentLogs := decode(bytes);
        if IsNullOrWhiteSpace(incidentLogs) then EmptyLog
        else FetchedPreamble + incidentLogs
  }

  /** Whitespace is preserved by concatenation only if both parts are blank. */
  lemma NotBlankAppend(a: string, b: string)
    requires !IsNullOrWhiteSpace(b)
    ensures !IsNullOrWhiteSpace(a + b)
  {
    var i :| 0 <= i < |b| && !IsWhiteSpace(b[i]);
    assert (a + b)[|a| + i] == b[i];
  }

  /** The pushed blob decodes to the prior text followed by the log. */
  lemma PushedDecodes(blob: Blob, incidentLog: string)
    requires blob.Some? ==> Decode(blob.value).Some?
    ensures var prior := if blob.None? then "" else Decode(blob.value).value;
            Decode(Pushed(blob, incidentLog).value) == Some(prior + incidentLog)
  {
    var prior := if blob.None? then "" else Decode(blob.value).value;
    if blob.Some? {
      EncodeDecode(blob.value);
    }
    assert blob.GetOr([]) == Encode(prior);
    EncodeAppend(prior, incidentLog);
    DecodeEncode(prior + incidentLog);
  }

  /** A push followed by a fetch: the blob now exists, so the fetch never reports
      it missing, and when the stream reader decodes UTF-8 faithfully and the
      prior blob (if any) held valid UTF-8 text `prior`, the fetch returns the
      preamble followed by `prior` and the pushed log. */
  lemma FetchAfterPush(config: Configuration, runningLocally: bool,
                       blob: Blob, incidentLog: string, decode: seq<byte> -> string)
    requires !IsNullOrWhiteSpace(incidentLog)
    requires MissingSetting(config, runningLocally).None?
    requires forall bs :: Decode(bs).Some? ==> decode(bs) == Decode(bs).value
    requires blob.Some? ==> Decode(blob.value).Some?
    ensures FetchMistakes(config, runningLocally, Pushed(blob, incidentLog), decode) != NoIncidents
    ensures var prior := if blob.None? then "" else Decode(blob.value).value;
            FetchMistakes(config, runningLocally, Pushed(blob, incidentLog), decode)
              == FetchedPreamble + (prior + incidentLog)
  {
    var prior := if blob.None? then "" else Decode(blob.value).value;
    var pushed := Pushed(blob, incidentLog);
    PushedDecodes(blob, incidentLog);
    assert decode(pushed.value) == prior + incidentLog;
    NotBlankAppend(prior, incidentLog);
    var r := FetchMistakes(config, runningLocally, pushed, decode);
    assert r == FetchedPreamble + (prior + incidentLog);
    assert |r| != |NoIncidents|;
  }
}
