# Digital receipts: key conversion, store-name registry and receipt retry

A Dafny model of the logic of a mobile receipt-scanning app that does more
than UI work. A QR code names a blockchain transaction and a symmetric key.
The app fetches the transaction from an overlay service and takes the
encrypted receipt out of its locking script. It decrypts the receipt and
saves it locally next to a sorted list of known store names.

- `key_conversion.dfy` (module `KeyConversion`) models `hexToBytes`. It is
  base16 decoding in the sense of section 8 of RFC 4648, except that
  odd-length input is accepted. The loop reads the string two characters at a
  time. `HexToBytes` is that loop, and `Decode` is a recursive reference
  definition. The lemmas cover the exact length, the value of each element,
  the odd trailing digit, case-insensitivity and splitting at an even offset.
  They also prove the round trip with a lower-case encoder in both directions.
- `store_names.dfy` (module `StoreNames`) models `saveStoreName`. The stored
  list is left alone when some entry equals the new name ignoring case.
  Otherwise the name is appended in its own casing and the whole list is
  re-sorted. Lower-casing and `localeCompare` are parameters: a function and
  an order (`Locale`). The lemmas prove growth by exactly one, sortedness
  under a total order, idempotence and that no case-insensitive duplicates
  appear. `SortedUnique` shows that under a total order every correct sort
  gives the same list, so the choice of sort algorithm in the model does not
  matter.
- `local_storage.dfy` (module `LocalStorage`) is the key-value store. A class
  `Storage` has one field per stored key (`receipts`, `storeNames`). Each
  field is an `Item`: nothing stored, text that does not parse, parsed JSON
  that is not an array, or a list.
- `receipt_retry.dfy` (module `ReceiptRetry`) models `saveReceiptRetry`
  together with `decryptJSON`. `Retry` is the reference definition of one
  retry, and the method `SaveReceiptRetry` is proved equal to it. The overlay
  lookup, the cipher (with its JSON parse), the clock and the id generator
  come in through `Env`. A throw from any of them is a `None`/`LookupFailed`
  value.

## Behaviour worth knowing

- Odd-length hex is accepted. The converter gives one more element, the value
  of the lone trailing digit (`OddLengthTail`).
- `decryptJSON` drops the first three bytes with `slice(3)`, so data of three
  bytes or fewer reaches the cipher as the empty sequence
  (`DecryptJsonShortData`).
- The ciphertext is read from one place only:
  `outputs[0].lockingScript.chunks[1].data`
  (`CiphertextIsSecondChunkOfFirstOutput`).
- With no transaction, no output 0 or no `lockingScript` property, the
  initial empty array stays. An empty array is truthy, so it passes the
  "no data" check and is decrypted (`RetryDecryptsEmptyByDefault`).
- The retry writes nothing when there is no ciphertext or no store name
  (`RetryWithoutCiphertext`, `RetryWithoutStoreName`).

## Model

| member | source | states |
|---|---|---|
| KeyConversion.DigitValue | utils/keyConversion.ts:5 | a hex digit of either case has a value below 16 |
| KeyConversion.LowerDigit | utils/keyConversion.ts:5 | case-folding a hex digit keeps its value and gives a lower-case digit |
| KeyConversion.Pair | utils/keyConversion.ts:5 | the slice read at step k has two characters, or one when it is the trailing character of odd-length input |
| KeyConversion.HexToBytes | utils/keyConversion.ts:2-7 | the loop returns ceil(n/2) elements, element k is the base-16 value of slice k, and the result equals the reference decoding |
| KeyConversion.DecodeSpec | utils/keyConversion.ts:4-7 | the decoding has (n+1)/2 elements, element k being the value of slice k (so the empty string gives the empty list) |
| KeyConversion.ByteAt | utils/keyConversion.ts:4-5 | for a full pair, element k is 16·digit(hex[2k]) + digit(hex[2k+1]) and at most 255 |
| KeyConversion.OddLengthTail | utils/keyConversion.ts:4-5 | odd-length input is accepted: the last element is the trailing digit's value, below 16 |
| KeyConversion.DecodeIsBytes | utils/keyConversion.ts:4-5 | every element lies in [0, 255] |
| KeyConversion.DecodeAppend | utils/keyConversion.ts:4-5 | if the first part has even length, decoding a concatenation is concatenating the decodings |
| KeyConversion.DecodeIgnoresCase | utils/keyConversion.ts:5 | strings that differ only in the case of their digits decode identically |
| KeyConversion.Encode | utils/keyConversion.ts:2-7 | re-encoding gives two lower-case hex digits per byte |
| KeyConversion.EncodeDecode | utils/keyConversion.ts:2-7 | an even-length lower-case hex string is given back by re-encoding its decoding |
| KeyConversion.DecodeEncode | utils/keyConversion.ts:2-7 | decoding the encoding of bytes gives the same bytes |
| StoreNames.Insert | utils/saveStoreName.ts:17 | inserting adds exactly the new name (as a multiset) and keeps a sorted list sorted under a total order |
| StoreNames.Sort | utils/saveStoreName.ts:17 | the re-sorted list is a permutation of its input and is sorted under a total order, whatever the input's order |
| StoreNames.SortedUnique | utils/saveStoreName.ts:17 | two sorted permutations of one list are equal under a total order, so any correct sort gives the same list |
| StoreNames.Register | utils/saveStoreName.ts:10-18 | a name equal to an entry ignoring case leaves the list unchanged; otherwise the list grows by one, is the old entries plus the name, and is sorted |
| StoreNames.RegisterKeepsEntries | utils/saveStoreName.ts:14-15 | every old entry is kept, a new name is stored in its own casing, and afterwards some entry matches the name ignoring case |
| StoreNames.RegisterIdempotent | utils/saveStoreName.ts:10-18 | offering the same name twice gives the list that offering it once gave |
| StoreNames.RegisterKeepsNoCaseDuplicates | utils/saveStoreName.ts:10-16 | a list with no two entries equal ignoring case has none after the call |
| StoreNames.SavedNamesIdempotent | utils/saveStoreName.ts:4-26 | saving twice leaves storage as saving once does, with the write succeeding if either write succeeded |
| StoreNames.SaveStoreName | utils/saveStoreName.ts:4-26 | the stored list becomes SavedNames of the old one: unchanged on unreadable data, an existing name or a failed write (each swallowed), otherwise the registered list; the receipts are untouched |
| ReceiptRetry.DecryptJsonSkipsHeader | utils/decryption.ts:3-10 | the first three bytes never reach the cipher: the cipher decrypts exactly the data after them |
| ReceiptRetry.DecryptJsonShortData | utils/decryption.ts:5 | data of three bytes or fewer is not rejected; the cipher gets the empty sequence |
| ReceiptRetry.CiphertextIsSecondChunkOfFirstOutput | hooks/saveReceiptRetry.ts:16-22 | the ciphertext is chunk 1's data of output 0, whatever the other chunks and the later outputs are |
| ReceiptRetry.CiphertextDefaultsToEmpty | hooks/saveReceiptRetry.ts:16-19 | with no transaction, no output 0 or no lockingScript property, the extracted data stays the empty list |
| ReceiptRetry.CiphertextMissing | hooks/saveReceiptRetry.ts:16-27 | the data is missing (the early exit) exactly when output 0 has a null script, fewer than two chunks, or no data in chunk 1 |
| ReceiptRetry.NewReceiptFields | hooks/saveReceiptRetry.ts:47-52 | the new record keeps every field of the old one except scannedAt, id and fullReceiptData, which it sets; fullReceiptData is the decrypted document |
| ReceiptRetry.FetchAndDecrypt | hooks/saveReceiptRetry.ts:14-32 | the lookup, then the extraction, then the key conversion and decryption give the document RetrievedDocument describes |
| ReceiptRetry.SaveReceiptRetry | hooks/saveReceiptRetry.ts:8-61 | the result and the two stored lists after the call are those of the reference definition Retry |
| ReceiptRetry.RetryAppendsOnlyOnSuccess | hooks/saveReceiptRetry.ts:47-60 | on false the receipts are unchanged; on true the old list is kept in order as a prefix and exactly one new record follows it |
| ReceiptRetry.RetryWithoutCiphertext | hooks/saveReceiptRetry.ts:21-27 | missing data in output 0 gives false and writes neither list |
| ReceiptRetry.RetryDecryptsEmptyByDefault | hooks/saveReceiptRetry.ts:16-32 | with no transaction, output 0 or lockingScript, decryption still runs, on the empty sequence |
| ReceiptRetry.RetryKeyAndCiphertext | hooks/saveReceiptRetry.ts:31-32 | the cipher gets hexToBytes of symkeyString and the extracted data without its three-byte header |
| ReceiptRetry.RetryWithoutStoreName | hooks/saveReceiptRetry.ts:38-44 | a document without a non-empty store.name gives false and writes neither list |
| ReceiptRetry.RetryRegistersNameFirst | hooks/saveReceiptRetry.ts:38-56 | once the store name is found it is registered before the receipt is appended, even if the append or the write then fails; the result is true exactly when the receipts are a list and the write succeeds |
| ReceiptRetry.RetryFailureBeforeDecryption | hooks/saveReceiptRetry.ts:9-32 | unparseable receipts, a failed lookup, a missing key field or a failed decryption give false and change nothing |

## Left out

- The overlay lookup (`hooks/getTransactionByID.ts`, a network query with a 10 s timeout) is the input `Env.lookup`, applied to `receiptData.txid`.
- `SymmetricKey.decrypt` and `JSON.parse` inside `decryptJSON` are the uninterpreted input `Env.cipher`; only the three-byte drop is modelled.
- `Date.now()`, `new Date().toISOString()` and the id built from them are the inputs `Env.now` and `Env.newId`.
- Storage I/O is modelled as the two `Storage` fields. A failed write is a boolean input (`namesWritable`, `receiptsWritable`). A failed read is the `Unparseable` item.
- KeyConversion.HexToBytes: valid hex digits are a precondition. `parseInt`'s results on other characters (NaN, prefix parsing, signs, whitespace) are not modelled. A `symkeyString` that is not all hex digits is handed to the cipher unconverted (`KeyFrom`).
- StoreNames.Sort: `localeCompare` is an abstract order, and sortedness is proved only for a total order. Distinct strings that compare equal, and the platform's stable sort, are not modelled. Lower-casing is an abstract function.
- Console logging is left out: it has no effect on state or results.
- Interleaving of concurrent asynchronous runs is left out. Each call runs from start to end against one `Storage`.
- Values the code does not expect are not modelled: non-string entries in the stored name list, a truthy `store.name` that is not a string, and a locking script without a `chunks` array.
- A `symkeyString` that is present but not a string is passed to the cipher as it is. Only a missing field is modelled as the throw from `hexToBytes`.
- Modals, styles, spinners and screens are UI, so they are left out.
