/**
 * The device's persistent key-value store as the receipt logic sees it: two
 * keys, 'scannedReceipts' and 'storeNames', each holding a JSON document.
 */
module LocalStorage {
  import opened Options

  /**
   * What reading one key and parsing it yields: nothing stored, text that does
   * not parse as JSON, JSON that is not an array, or an array.
   */
  datatype Item<T> = Absent | Unparseable | NotAList | Present(value: T)

  /**
   * A decrypted receipt document. `storeName` is its `store.name` when that is
   * a string (absent otherwise); `json` stands for the plaintext it was parsed from.
   */
  datatype Document = Document(storeName: Option<string>, json: string)

  /** A field value of a receipt record: a string, a decrypted document, or any other JSON value. */
  datatype Value = Text(text: string) | Doc(doc: Document) | Other(code: int)

  /** A receipt record: a JSON object from field names to values. */
  type Record = map<string, Value>

  class Storage {
    /** The value stored under 'scannedReceipts'. */
    var receipts: Item<seq<Record>>
    /** The value stored under 'storeNames'. */
    var storeNames: Item<seq<string>>

    constructor (receipts: Item<seq<Record>>, storeNames: Item<seq<string>>)
      ensures this.receipts == receipts && this.storeNames == storeNames
    {
      this.receipts := receipts;
      this.storeNames := storeNames;
    }
  }
}
