/** Legacy events, the rows they become and the primary key of each row (src/schema). */
module Schema {
  import opened Prelude

  datatype Metadata = Metadata(
    id: string,
    chainId: nat,
    blockNumber: nat,
    blockHash: Option<string>,
    blockTimestamp: nat,
    transactionHash: string,
    transactionIndex: int,
    logIndex: int,
    contractAddress: string,
    transactionFrom: Option<string>)

  datatype Event =
    | HashImported(meta: Metadata, srcChainId: nat, targetChainId: nat, oracle: string,
                   channel: string, msgIndex: nat, hash: string)
    | MessageAccepted(meta: Metadata, msgHash: string, channel: string, index: nat, fromChainId: nat,
                      sender: string, toChainId: nat, recipient: string, gasLimit: nat, encoded: string)
    | MessageAssigned(meta: Metadata, msgHash: string, oracle: string, relayer: string,
                      oracleFee: nat, relayerFee: nat, params: string)
    | MessageDispatched(meta: Metadata, targetChainId: nat, msgHash: string, dispatchResult: bool)
    | MsgportMessageRecv(meta: Metadata, msgId: string, result: bool, returnData: string)
    | MsgportMessageSent(meta: Metadata, msgId: string, fromDapp: string, toChainId: nat,
                         toDapp: string, message: string, params: string)
    | SignatureSubmittion(meta: Metadata, payloadChainId: nat, channel: string, signer: string,
                          msgIndex: nat, signature: string, data: string)

  /** The rows of the seven legacy tables. The six assignment columns of
      `ormp_message_accepted` are kept apart, in `DatabaseSpec.Db.view`. */
  datatype Row =
    | HashImportedRow(id: string, blockNumber: nat, transactionHash: string, blockTimestamp: nat, chainId: nat,
                      srcChainId: nat, targetChainId: nat, oracle: string, channel: string,
                      msgIndex: nat, hash: string)
    | AcceptedRow(id: string, blockNumber: nat, transactionHash: string, blockTimestamp: nat, chainId: nat,
                  logIndex: int, msgHash: string, channel: string, index: nat, fromChainId: nat,
                  sender: string, toChainId: nat, recipient: string, gasLimit: nat, encoded: string)
    | AssignedRow(id: string, blockNumber: nat, transactionHash: string, blockTimestamp: nat, chainId: nat,
                  msgHash: string, oracle: string, relayer: string, oracleFee: nat, relayerFee: nat,
                  params: string)
    | DispatchedRow(id: string, blockNumber: nat, transactionHash: string, blockTimestamp: nat, chainId: nat,
                    targetChainId: nat, msgHash: string, dispatchResult: bool)
    | RecvRow(id: string, blockNumber: nat, transactionHash: string, blockTimestamp: nat, chainId: nat,
              transactionIndex: int, logIndex: int, portAddress: string, msgId: string, result: bool,
              returnData: string)
    | SentRow(id: string, blockNumber: nat, transactionHash: string, blockTimestamp: nat, chainId: nat,
              transactionIndex: int, logIndex: int, portAddress: string, transactionFrom: Option<string>,
              fromChainId: nat, msgId: string, fromDapp: string, toChainId: nat, toDapp: string,
              message: string, params: string)
    | SignatureRow(id: string, blockNumber: nat, transactionHash: string, blockTimestamp: nat, chainId: nat,
                   channel: string, signer: string, msgIndex: nat, signature: string, data: string)

  datatype Table =
    | HashImportedTable | AcceptedTable | AssignedTable | DispatchedTable | RecvTable | SentTable
    | SignatureTable

  datatype RowKey = RowKey(table: Table, id: string)

  function TableOf(r: Row): Table {
    match r
    case HashImportedRow(_, _, _, _, _, _, _, _, _, _, _) => HashImportedTable
    case AcceptedRow(_, _, _, _, _, _, _, _, _, _, _, _, _, _, _) => AcceptedTable
    case AssignedRow(_, _, _, _, _, _, _, _, _, _, _) => AssignedTable
    case DispatchedRow(_, _, _, _, _, _, _, _) => DispatchedTable
    case RecvRow(_, _, _, _, _, _, _, _, _, _, _) => RecvTable
    case SentRow(_, _, _, _, _, _, _, _, _, _, _, _, _, _, _, _) => SentTable
    case SignatureRow(_, _, _, _, _, _, _, _, _, _) => SignatureTable
  }

  function KeyOfRow(r: Row): RowKey {
    RowKey(TableOf(r), r.id)
  }

  function AcceptedKey(msgHash: string): RowKey {
    RowKey(AcceptedTable, msgHash)
  }

  // ---- Decimal rendering and the legacy event id ----

  function DigitChar(d: nat): char
    requires d < 10
  {
    ('0' as int + d) as char
  }

  function Decimal(n: nat): (s: string)
    ensures |s| >= 1
  {
    if n < 10 then [DigitChar(n)] else Decimal(n / 10) + [DigitChar(n % 10)]
  }

  function Zeros(n: nat): (s: string)
    ensures |s| == n
  {
    seq(n, _ => '0')
  }

  /** Rust's `{:0width}`: pads on the left and never truncates. */
  function PadLeft(width: nat, s: string): (r: string)
    ensures |r| == (if |s| < width then width else |s|)
  {
    if |s| < width then Zeros(width - |s|) + s else s
  }

  function PadInt(width: nat, n: int): string {
    if n >= 0 then PadLeft(width, Decimal(n))
    else "-" + PadLeft(if width > 0 then width - 1 else 0, Decimal(-n))
  }

  function StripHexPrefix(h: string): string {
    if |h| >= 2 && h[0] == '0' && (h[1] == 'x' || h[1] == 'X') then h[2..] else h
  }

  /** The first five digits of a block hash, lower-cased. */
  function HashPrefix(h: string): string {
    var digits := StripHexPrefix(h);
    Lower(if |digits| <= 5 then digits else digits[..5])
  }

  function LegacyEventLogId(m: Metadata): string {
    match m.blockHash
    case None => m.id
    case Some(h) =>
      PadLeft(10, Decimal(m.blockNumber)) + "-" + HashPrefix(h) + "-" + PadInt(6, m.logIndex)
  }

  // ---- from_event ----

  function RowOf(e: Event): Row {
    var m := e.meta;
    match e
    case HashImported(_, src, target, oracle, channel, idx, hash) =>
      HashImportedRow(hash, m.blockNumber, m.transactionHash, m.blockTimestamp, m.chainId,
                      src, target, oracle, channel, idx, hash)
    case MessageAccepted(_, h, channel, index, fromChain, sender, toChain, recipient, gas, encoded) =>
      AcceptedRow(h, m.blockNumber, m.transactionHash, m.blockTimestamp, m.chainId,
                  m.logIndex, h, channel, index, fromChain, sender, toChain, recipient, gas, encoded)
    case MessageAssigned(_, h, oracle, relayer, oracleFee, relayerFee, params) =>
      AssignedRow(m.id, m.blockNumber, m.transactionHash, m.blockTimestamp, m.chainId,
                  h, oracle, relayer, oracleFee, relayerFee, params)
    case MessageDispatched(_, target, h, ok) =>
      DispatchedRow(h, m.blockNumber, m.transactionHash, m.blockTimestamp, m.chainId, target, h, ok)
    case MsgportMessageRecv(_, msgId, ok, ret) =>
      RecvRow(LegacyEventLogId(m), m.blockNumber, m.transactionHash, m.blockTimestamp, m.chainId,
              m.transactionIndex, m.logIndex, m.contractAddress, msgId, ok, ret)
    case MsgportMessageSent(_, msgId, fromDapp, toChain, toDapp, message, params) =>
      SentRow(LegacyEventLogId(m), m.blockNumber, m.transactionHash, m.blockTimestamp, m.chainId,
              m.transactionIndex, m.logIndex, m.contractAddress, m.transactionFrom, m.chainId,
              msgId, fromDapp, toChain, toDapp, message, params)
    case SignatureSubmittion(_, payloadChain, channel, signer, idx, signature, data) =>
      // The payload's chain, not the chain the log came from.
      SignatureRow(LegacyEventLogId(m), m.blockNumber, m.transactionHash, m.blockTimestamp, payloadChain,
                   channel, signer, idx, signature, data)
  }

  /** The event with other metadata. */
  function WithMeta(e: Event, m: Metadata): (r: Event)
    ensures r.meta == m
  {
    match e
    case HashImported(_, src, target, oracle, channel, idx, hash) => HashImported(m, src, target, oracle, channel, idx,
        hash)
    case MessageAccepted(_, h, channel, index, fromChain, sender, toChain, recipient, gas, encoded) =>
      MessageAccepted(m, h, channel, index, fromChain, sender, toChain, recipient, gas, encoded)
    case MessageAssigned(_, h, oracle, relayer, oracleFee, relayerFee, params) =>
      MessageAssigned(m, h, oracle, relayer, oracleFee, relayerFee, params)
    case MessageDispatched(_, target, h, ok) => MessageDispatched(m, target, h, ok)
    case MsgportMessageRecv(_, msgId, ok, ret) => MsgportMessageRecv(m, msgId, ok, ret)
    case MsgportMessageSent(_, msgId, fromDapp, toChain, toDapp, message, params) =>
      MsgportMessageSent(m, msgId, fromDapp, toChain, toDapp, message, params)
    case SignatureSubmittion(_, payloadChain, channel, signer, idx, signature, data) =>
      SignatureSubmittion(m, payloadChain, channel, signer, idx, signature, data)
  }

  /** Other metadata changes nothing else of the event. */
  lemma WithMetaKeeps(e: Event, m: Metadata)
    ensures WithMeta(e, e.meta) == e && WithMeta(WithMeta(e, m), e.meta) == e
  {
  }

  function RowsOf(events: seq<Event>): (rows: seq<Row>)
    ensures |rows| == |events|
    ensures forall i :: 0 <= i < |rows| ==> rows[i] == RowOf(events[i])
  {
    seq(|events|, i requires 0 <= i < |events| => RowOf(events[i]))
  }

  /** Accepted rows are keyed by their message hash. */
  predicate WellFormed(r: Row) {
    r.AcceptedRow? ==> r.msgHash == r.id
  }

  lemma RowsAreWellFormed(events: seq<Event>)
    ensures forall r :: r in RowsOf(events) ==> WellFormed(r)
  {
  }

  /** A row keeps what its event says: two events with the same metadata and the same row are the same event. */
  lemma RowKeepsEvent(d: Event, e: Event)
    requires d.meta == e.meta && RowOf(d) == RowOf(e)
    ensures d == e
  {
  }

  /** What every table stores of an event's metadata. A signature row carries its payload's chain. */
  predicate CarriesMeta(r: Row, e: Event) {
    && r.blockNumber == e.meta.blockNumber && r.transactionHash == e.meta.transactionHash
    && r.blockTimestamp == e.meta.blockTimestamp
    && r.chainId == if e.SignatureSubmittion? then e.payloadChainId else e.meta.chainId
  }

  /** Where an event of one of the two messenger contracts stood, and which contract emitted it. */
  predicate CarriesPlace(r: Row, e: Event)
    requires r.RecvRow? || r.SentRow?
  {
    && r.transactionIndex == e.meta.transactionIndex && r.logIndex == e.meta.logIndex
    && r.portAddress == e.meta.contractAddress
  }

  /** Each column of an event's row, by name, and the text it is keyed by. */
  lemma RowColumns(e: Event)
    ensures CarriesMeta(RowOf(e), e)
    ensures e.HashImported? ==>
              var r := RowOf(e);
              && r.HashImportedRow? && r.id == e.hash && r.srcChainId == e.srcChainId
              && r.targetChainId == e.targetChainId && r.oracle == e.oracle && r.channel == e.channel
              && r.msgIndex == e.msgIndex && r.hash == e.hash
    ensures e.MessageAccepted? ==>
              var r := RowOf(e);
              && r.AcceptedRow? && r.id == e.msgHash && r.logIndex == e.meta.logIndex && r.msgHash == e.msgHash
              && r.channel == e.channel && r.index == e.index && r.fromChainId == e.fromChainId
              && r.sender == e.sender && r.toChainId == e.toChainId && r.recipient == e.recipient
              && r.gasLimit == e.gasLimit && r.encoded == e.encoded
    ensures e.MessageAssigned? ==>
              var r := RowOf(e);
              && r.AssignedRow? && r.id == e.meta.id && r.msgHash == e.msgHash && r.oracle == e.oracle
              && r.relayer == e.relayer && r.oracleFee == e.oracleFee && r.relayerFee == e.relayerFee
              && r.params == e.params
    ensures e.MessageDispatched? ==>
              var r := RowOf(e);
              && r.DispatchedRow? && r.id == e.msgHash && r.targetChainId == e.targetChainId
              && r.msgHash == e.msgHash && r.dispatchResult == e.dispatchResult
    ensures e.MsgportMessageRecv? ==>
              var r := RowOf(e);
              && r.RecvRow? && r.id == LegacyEventLogId(e.meta) && CarriesPlace(r, e) && r.msgId == e.msgId
              && r.result == e.result && r.returnData == e.returnData
    ensures e.MsgportMessageSent? ==>
              var r := RowOf(e);
              && r.SentRow? && r.id == LegacyEventLogId(e.meta) && CarriesPlace(r, e)
              && r.transactionFrom == e.meta.transactionFrom && r.fromChainId == e.meta.chainId
              && r.msgId == e.msgId && r.fromDapp == e.fromDapp && r.toChainId == e.toChainId
              && r.toDapp == e.toDapp && r.message == e.message && r.params == e.params
    ensures e.SignatureSubmittion? ==>
              var r := RowOf(e);
              && r.SignatureRow? && r.id == LegacyEventLogId(e.meta) && r.channel == e.channel
              && r.signer == e.signer && r.msgIndex == e.msgIndex && r.signature == e.signature && r.data == e.data
  {
  }
}
