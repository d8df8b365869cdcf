/**
 * Retrying the retrieval of a saved receipt: look the transaction up again,
 * take the ciphertext from the second chunk of output 0's locking script,
 * decrypt it with the receipt's key, and when the document names its store,
 * register that name and append a completed receipt record. Every failure
 * turns into the result `false`.
 *
 * The overlay lookup, the symmetric cipher with its JSON parse, the clock and
 * the id generator are inputs (`Env`); the lookup and the cipher are
 * uninterpreted functions, `None`/`LookupFailed` standing for a throw.
 */
module ReceiptRetry {
  import opened Options
  import opened LocalStorage
  import KeyConversion
  import StoreNames

  /** One chunk of a locking script: an opcode and, for a push, its data. */
  datatype Chunk = Chunk(op: nat, data: Option<seq<int>>)

  /** An output's `lockingScript` property: not there, there but null, or a script. */
  datatype LockingScriptField = NoLockingScript | NullLockingScript | LockingScript(chunks: seq<Chunk>)

  datatype Output = Output(satoshis: int, lockingScript: LockingScriptField)

  datatype Transaction = Transaction(outputs: seq<Output>)

  /** The overlay lookup of a transaction by id: it throws, or answers with a transaction or nothing. */
  datatype Lookup = LookupFailed | Answer(tx: Option<Transaction>)

  /**
   * Key material handed to the cipher: the bytes of a hex key string, or a
   * `symkeyString` the converter is not modelled on (not hex digits, or not a string).
   */
  datatype Key = KeyBytes(bytes: seq<nat>) | KeyFrom(symkey: Value)

  /** Symmetric decryption followed by JSON parsing; `None` when either throws. */
  type Cipher = (Key, seq<int>) -> Option<Document>

  /** Everything the retry gets from outside the model. */
  datatype Env = Env(
    lookup: Option<Value> -> Lookup,  // the overlay query, given `receiptData.txid`
    cipher: Cipher,
    now: string,                      // `new Date().toISOString()`
    newId: string,                    // `Date.now().toString()`
    namesWritable: bool,              // whether writing 'storeNames' succeeds
    receiptsWritable: bool)           // whether writing 'scannedReceipts' succeeds

  /** `decryptJSON`: drop the first three bytes (all of them when there are fewer), then decrypt. */
  function DecryptJson(encrypted: seq<int>, key: Key, cipher: Cipher): Option<Document> {
    cipher(key, if |encrypted| <= 3 then [] else encrypted[3..])
  }

  /** The three-byte header never reaches the cipher. */
  lemma DecryptJsonSkipsHeader(header: seq<int>, body: seq<int>, key: Key, cipher: Cipher)
    requires |header| == 3
    ensures DecryptJson(header + body, key, cipher) == cipher(key, body)
  {
  }

  /** Data of three bytes or fewer is not rejected: the cipher gets the empty sequence. */
  lemma DecryptJsonShortData(encrypted: seq<int>, key: Key, cipher: Cipher)
    requires |encrypted| <= 3
    ensures DecryptJson(encrypted, key, cipher) == cipher(key, [])
  {
  }

  /**
   * What `encryptedReceiptData` holds after the extraction step, `None`
   * standing for `undefined`: it starts as the empty list and is replaced by
   * `lockingScript?.chunks[1]?.data` only when output 0 has a `lockingScript`.
   */
  function Ciphertext(tx: Option<Transaction>): Option<seq<int>> {
    if tx.None? || tx.value.outputs == [] then Some([])
    else
      match tx.value.outputs[0].lockingScript
      case NoLockingScript => Some([])
      case NullLockingScript => None
      case LockingScript(chunks) => if |chunks| < 2 then None else chunks[1].data
  }

  /** Only output 0 and its chunk 1 are looked at. */
  lemma CiphertextIsSecondChunkOfFirstOutput(tx: Transaction, chunks: seq<Chunk>)
    requires |tx.outputs| > 0 && tx.outputs[0].lockingScript == LockingScript(chunks)
    requires |chunks| >= 2
    ensures Ciphertext(Some(tx)) == chunks[1].data
  {
  }

  /** Without a transaction, an output 0 or a `lockingScript`, the initial empty list stays. */
  lemma CiphertextDefaultsToEmpty(tx: Option<Transaction>)
    requires tx.None? || tx.value.outputs == [] || tx.value.outputs[0].lockingScript.NoLockingScript?
    ensures Ciphertext(tx) == Some([])
  {
  }

  /** The ciphertext is missing exactly when output 0's script is null or has no data in chunk 1. */
  lemma CiphertextMissing(tx: Option<Transaction>)
    ensures Ciphertext(tx).None? <==>
              && tx.Some? && tx.value.outputs != []
              && match tx.value.outputs[0].lockingScript
                 case NoLockingScript => false
                 case NullLockingScript => true
                 case LockingScript(chunks) => |chunks| < 2 || chunks[1].data.None?
  {
  }

  /** The key `hexToBytes(receiptData.symkeyString)` yields; `None` when the field is missing (a throw). */
  function KeyOf(receiptData: Record): Option<Key> {
    if "symkeyString" !in receiptData then None
    else
      match receiptData["symkeyString"]
      case Text(s) => if KeyConversion.IsHex(s) then Some(KeyBytes(KeyConversion.Decode(s))) else Some(KeyFrom(Text(s)))
      case v => Some(KeyFrom(v))
  }

  function TxidOf(receiptData: Record): Option<Value> {
    if "txid" in receiptData then Some(receiptData["txid"]) else None
  }

  /** The decrypted document the retry obtains, or `None` when it gives up before the store-name check. */
  function RetrievedDocument(receiptData: Record, env: Env): Option<Document> {
    var answer := env.lookup(TxidOf(receiptData));
    if answer.LookupFailed? then None
    else
      match Ciphertext(answer.tx)
      case None => None
      case Some(data) =>
        match KeyOf(receiptData)
        case None => None
        case Some(key) => DecryptJson(data, key, env.cipher)
  }

  /** The name the retry registers: `store.name` when it is a non-empty (truthy) string. */
  function StoreNameOf(doc: Document): Option<string> {
    if doc.storeName.Some? && doc.storeName.value != "" then doc.storeName else None
  }

  /** The record `{...receiptData, scannedAt, id, fullReceiptData}`. */
  function NewReceipt(receiptData: Record, scannedAt: string, id: string, doc: Document): Record {
    receiptData + map["scannedAt" := Text(scannedAt), "id" := Text(id), "fullReceiptData" := Doc(doc)]
  }

  /** Every field of the old record is kept except the three that are set afresh. */
  lemma NewReceiptFields(receiptData: Record, scannedAt: string, id: string, doc: Document)
    ensures NewReceipt(receiptData, scannedAt, id, doc).Keys == receiptData.Keys + {"scannedAt", "id", "fullReceiptData"}
    ensures NewReceipt(receiptData, scannedAt, id, doc)["scannedAt"] == Text(scannedAt)
    ensures NewReceipt(receiptData, scannedAt, id, doc)["id"] == Text(id)
    ensures NewReceipt(receiptData, scannedAt, id, doc)["fullReceiptData"] == Doc(doc)
    ensures forall k :: k in receiptData && k !in {"scannedAt", "id", "fullReceiptData"} ==>
              NewReceipt(receiptData, scannedAt, id, doc)[k] == receiptData[k]
  {
  }

  function ListOf<T>(item: Item<seq<T>>): seq<T> {
    if item.Present? then item.value else []
  }

  /** The result of a retry and the two stored values after it. */
  datatype Outcome = Outcome(saved: bool, receipts: Item<seq<Record>>, storeNames: Item<seq<string>>)

  /** Reference definition of a retry, step by step as the app's `saveReceiptRetry` takes them. */
  function Retry(receipts: Item<seq<Record>>, storeNames: Item<seq<string>>, receiptData: Record, env: Env, loc: StoreNames.Locale): Outcome
  {
    if receipts.Unparseable? then Outcome(false, receipts, storeNames)
    else
      match RetrievedDocument(receiptData, env)
      case None => Outcome(false, receipts, storeNames)
      case Some(doc) =>
        match StoreNameOf(doc)
        case None => Outcome(false, receipts, storeNames)
        case Some(name) =>
          var names := StoreNames.SavedNames(storeNames, name, loc, env.namesWritable);
          if receipts.NotAList? || !env.receiptsWritable then Outcome(false, receipts, names)
          else Outcome(true, Present(ListOf(receipts) + [NewReceipt(receiptData, env.now, env.newId, doc)]), names)
  }

  /**
   * The middle of `saveReceiptRetry`: look the transaction up, extract the
   * ciphertext, convert the key and decrypt; `None` where the app returns
   * `false` or throws.
   */
  method FetchAndDecrypt(receiptData: Record, env: Env) returns (decrypted: Option<Document>)
    ensures decrypted == RetrievedDocument(receiptData, env)
  {
    var answer := env.lookup(TxidOf(receiptData));
    if answer.LookupFailed? {
      return None;
    }
    var encrypted: Option<seq<int>> := Some([]);
    if answer.tx.Some? && answer.tx.value.outputs != [] {
      match answer.tx.value.outputs[0].lockingScript {
        case NoLockingScript =>
        case NullLockingScript => encrypted := None;
        case LockingScript(chunks) => encrypted := if |chunks| < 2 then None else chunks[1].data;
      }
    }
    if encrypted.None? {
      return None;  // no ciphertext: the retry gives up
    }

    if "symkeyString" !in receiptData {
      return None;  // hexToBytes(undefined) throws
    }
    var symkey := receiptData["symkeyString"];
    var key: Key;
    if symkey.Text? && KeyConversion.IsHex(symkey.text) {
      var bytes := KeyConversion.HexToBytes(symkey.text);
      key := KeyBytes(bytes);
    } else {
      key := KeyFrom(symkey);
    }
    decrypted := DecryptJson(encrypted.value, key, env.cipher);
  }

  /**
   * The app's `saveReceiptRetry`: returns whether a completed receipt was
   * stored, and leaves storage as the reference definition says.
   */
  method SaveReceiptRetry(store: Storage, receiptData: Record, env: Env, loc: StoreNames.Locale) returns (saved: bool)
    modifies store
    ensures Outcome(saved, store.receipts, store.storeNames)
            == Retry(old(store.receipts), old(store.storeNames), receiptData, env, loc)
  {
    if store.receipts.Unparseable? {
      return false;  // JSON.parse throws
    }
    var receipts := ListOf(store.receipts);
    var isList := !store.receipts.NotAList?;

    var decrypted := FetchAndDecrypt(receiptData, env);
    if decrypted.None? {
      return false;
    }
    var doc := decrypted.value;
    var name: string;
    match StoreNameOf(doc) {
      case None => return false;  // no store name: the retry gives up
      case Some(n) => name := n;
    }
    StoreNames.SaveStoreName(store, name, loc, env.namesWritable);

    var newReceipt := NewReceipt(receiptData, env.now, env.newId, doc);
    if !isList {
      return false;  // `push` on a value that is not an array throws
    }
    receipts := receipts + [newReceipt];
    if !env.receiptsWritable {
      return false;
    }
    store.receipts := Present(receipts);
    saved := true;
  }

  /** On success one record is appended after the old ones; otherwise the receipts are untouched. */
  lemma RetryAppendsOnlyOnSuccess(receipts: Item<seq<Record>>, storeNames: Item<seq<string>>, receiptData: Record, env: Env, loc: StoreNames.Locale)
    ensures var out := Retry(receipts, storeNames, receiptData, env, loc);
            && (!out.saved ==> out.receipts == receipts)
            && (out.saved ==>
                  && (receipts.Absent? || receipts.Present?)
                  && RetrievedDocument(receiptData, env).Some?
                  && out.receipts.Present?
                  && |out.receipts.value| == |ListOf(receipts)| + 1
                  && out.receipts.value[..|ListOf(receipts)|] == ListOf(receipts)
                  && out.receipts.value[|ListOf(receipts)|]
                     == NewReceipt(receiptData, env.now, env.newId, RetrievedDocument(receiptData, env).value))
  {
  }

  /** Output 0 with a null script or no data in chunk 1: `false`, and nothing is written. */
  lemma RetryWithoutCiphertext(receipts: Item<seq<Record>>, storeNames: Item<seq<string>>, receiptData: Record, env: Env, loc: StoreNames.Locale)
    requires env.lookup(TxidOf(receiptData)).Answer?
    requires Ciphertext(env.lookup(TxidOf(receiptData)).tx).None?
    ensures Retry(receipts, storeNames, receiptData, env, loc) == Outcome(false, receipts, storeNames)
  {
  }

  /**
   * With no transaction, no output 0 or no `lockingScript`, the empty list
   * passes the check and reaches decryption, so the cipher sees no bytes.
   */
  lemma RetryDecryptsEmptyByDefault(receiptData: Record, env: Env)
    requires env.lookup(TxidOf(receiptData)).Answer?
    requires var tx := env.lookup(TxidOf(receiptData)).tx;
             tx.None? || tx.value.outputs == [] || tx.value.outputs[0].lockingScript.NoLockingScript?
    requires KeyOf(receiptData).Some?
    ensures RetrievedDocument(receiptData, env) == env.cipher(KeyOf(receiptData).value, [])
  {
  }

  /** The cipher gets the hex-decoded key and the ciphertext without its three-byte header. */
  lemma RetryKeyAndCiphertext(receiptData: Record, env: Env, s: string, header: seq<int>, body: seq<int>)
    requires env.lookup(TxidOf(receiptData)).Answer?
    requires Ciphertext(env.lookup(TxidOf(receiptData)).tx) == Some(header + body) && |header| == 3
    requires "symkeyString" in receiptData && receiptData["symkeyString"] == Text(s) && KeyConversion.IsHex(s)
    ensures RetrievedDocument(receiptData, env) == env.cipher(KeyBytes(KeyConversion.Decode(s)), body)
  {
  }

  /** A document without a store name: `false`, and neither list is written. */
  lemma RetryWithoutStoreName(receipts: Item<seq<Record>>, storeNames: Item<seq<string>>, receiptData: Record, env: Env, loc: StoreNames.Locale)
    requires RetrievedDocument(receiptData, env).Some?
    requires StoreNameOf(RetrievedDocument(receiptData, env).value).None?
    ensures Retry(receipts, storeNames, receiptData, env, loc) == Outcome(false, receipts, storeNames)
  {
  }

  /**
   * Once the document names its store, the name is registered before the
   * receipt is appended: even when appending or writing the receipts fails.
   */
  lemma RetryRegistersNameFirst(receipts: Item<seq<Record>>, storeNames: Item<seq<string>>, receiptData: Record, env: Env, loc: StoreNames.Locale)
    requires !receipts.Unparseable?
    requires RetrievedDocument(receiptData, env).Some?
    requires StoreNameOf(RetrievedDocument(receiptData, env).value).Some?
    ensures var name := StoreNameOf(RetrievedDocument(receiptData, env).value).value;
            Retry(receipts, storeNames, receiptData, env, loc).storeNames
            == StoreNames.SavedNames(storeNames, name, loc, env.namesWritable)
    ensures Retry(receipts, storeNames, receiptData, env, loc).saved <==> !receipts.NotAList? && env.receiptsWritable
  {
  }

  /** The lookup, the cipher and the key: any of them failing gives `false` and changes nothing. */
  lemma RetryFailureBeforeDecryption(receipts: Item<seq<Record>>, storeNames: Item<seq<string>>, receiptData: Record, env: Env, loc: StoreNames.Locale)
    requires RetrievedDocument(receiptData, env).None? || receipts.Unparseable?
    ensures Retry(receipts, storeNames, receiptData, env, loc) == Outcome(false, receipts, storeNames)
  {
  }
}
