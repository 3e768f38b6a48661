# crypto-pro-provider core, modelled in Dafny

crypto-pro-provider is a browser library that wraps the CryptoPro CAdES
plug-in. It lists the certificates in the user's store, signs a hash with one
of them, and returns the signature in base64. This project models the
library's pure core and proves properties of it:

- **`_hexToBase64`** (`hex_codec.dfy`, `base64.dfy`). The plug-in returns a
  signature as hexadecimal text. The library reads it two digits at a time
  from the end, so the bytes come out reversed, and encodes them with
  `btoa`. `btoa` is modelled as the base64 encoding of section 4 of
  RFC 4648. A strict decoder is added as its partner, and the two are proved
  to be inverses of each other.
- **`_convertStringToObj`** (`distinguished_name.dfy`). A distinguished name
  such as `CN=Smith, O=Example` is split on `", "`. Each piece is split on
  `"="` and stored as key ↦ value in an object. JavaScript's `split` with a
  non-empty string separator is modelled exactly, including `"".split(sep) == [""]`.
  The missing second element shows up as `None`, standing for `undefined`.
  The object is a `map`, filled by a loop method with later keys
  overwriting earlier ones.
- **`_prepareCertificates`** with the synchronous `_prepareValue`
  (`certificate_walk.dfy`). This recursive walk runs over the 1-indexed
  certificate collection. Each certificate that can be read becomes a
  record. A certificate whose reading throws is skipped, and the walk goes
  on.
- **`_isAsync`** and the selectors `Certificates`, `Sign` and
  `ParamsForDetachedSignature` (`mode_selection.dfy`). Given a plug-in object,
  they depend only on whether it offers `CreateObjectAsync`.

The source adds each record with `list.concat(record)` and discards the
result. As written, the walk therefore always returns the list it was given,
which means that whenever `_certificates` resolves, it resolves with `[]`. The model has both
versions. The as-written walk is proved to return its input unchanged. The
intended walk appends each record, and it is the one the rest of the model
uses (see Findings). The library's own description promises a list of
certificates, so the as-written code and the intended behaviour disagree
here.

The plug-in's collection is modelled as a sequence holding what reading each
item yields: either the certificate's fields or a fault. This covers
`Item(index)` outside `1..Count`, which the provider rejects by throwing.

## Model

| member | source | states |
|---|---|---|
| Base64.SextetChar | src/index.js:322 | a sextet 0..63 maps to an alphabet character, never the pad `=` |
| Base64.SextetValue | src/index.js:322 | the decoding table yields only values 0..63 and rejects `=` |
| Base64.SextetValueOfChar | src/index.js:322 | decoding the character of a sextet gives the sextet back |
| Base64.SextetCharOfValue | src/index.js:322 | every character the table accepts is the character of its value |
| Base64.EncodeQuantum | src/index.js:322 | 1..3 bytes give 4 characters, with `==` padding for exactly one byte and a single `=` for two, and none for three |
| Base64.Encode | src/index.js:322 | output length is 4·⌈n/3⌉ |
| Base64.DecodeQuantum | src/index.js:322 | a decoded quantum holds 1..3 bytes, and padding is accepted only in the last quantum |
| Base64.DecodeEncodeQuantum | src/index.js:322 | decoding an encoded quantum gives its bytes back |
| Base64.DecodeEncodeOne | src/index.js:322 | one octet encoded with `==` padding decodes back to that octet in the last quantum |
| Base64.DecodeEncodeTwo | src/index.js:322 | two octets encoded with `=` padding decode back to those octets in the last quantum |
| Base64.DecodeEncodeThree | src/index.js:322 | three octets encoded without padding decode back to those octets, last quantum or not |
| Base64.Ungroup | src/index.js:322 | the four sextets cut from three octets are each below 64 and reassemble to those octets |
| Base64.DecodeQuantumThen | src/index.js:322 | a decodable first quantum followed by decodable text decodes to the concatenation of both |
| Base64.DecodeEncode | src/index.js:322 | decoding the encoding of any byte sequence gives that sequence back |
| Base64.EncodeDecodeQuantum | src/index.js:322 | a quantum the strict decoder accepts is re-encoded to the same four characters |
| Base64.EncodeDecodeTwoPads | src/index.js:322 | an accepted quantum ending in `==` is re-encoded to the same characters |
| Base64.EncodeDecodeOnePad | src/index.js:322 | an accepted quantum ending in a single `=` is re-encoded to the same characters |
| Base64.EncodeDecodeNoPad | src/index.js:322 | an accepted quantum without padding is re-encoded to the same characters |
| Base64.EncodeSextets | src/index.js:322 | three octets whose sextets are a, b, c, d encode to the characters of a, b, c, d |
| Base64.Regroup | src/index.js:322 | the octets assembled from four sextets cut back into those sextets |
| Base64.EncodeDecode | src/index.js:322 | any text the strict decoder accepts is exactly the encoding of what it decodes to |
| Base64.Rfc4648ShortVectors | src/index.js:322 | the encoder reproduces the test vectors of section 10 of RFC 4648 for inputs of zero to three octets |
| Base64.Rfc4648LongVectors | src/index.js:322 | the encoder reproduces the test vectors of section 10 of RFC 4648 for `foob`, `fooba` and `foobar` |
| Base64.EncodeThen | src/index.js:322 | after a full first quantum, the encoding is that quantum's four characters followed by the encoding of the rest |
| HexCodec.DigitValue | src/index.js:317 | a hexadecimal digit has a value 0..15 |
| HexCodec.DigitChar | src/index.js:317 | each value 0..15 has a hexadecimal digit that reads back as that value |
| HexCodec.PairAt | src/index.js:317 | the byte read at `index` has the first digit's value as its high four bits and the second digit's value as its low four bits |
| HexCodec.ReversedPairs | src/index.js:314-320 | walking from `index` down by two gives ⌊index/2⌋+1 bytes, byte i being the pair at `index − 2i` |
| HexCodec.HexToBase64 | src/index.js:313-323 | the result is the base64 encoding of `str` followed by the pairs read from `index` down to 0 |
| HexCodec.HexToBase64Iterative | src/index.js:313-323 | the accumulator loop computes the same text as the recursion |
| HexCodec.SignatureValue | src/index.js:228 | the `signature_value` of n hexadecimal digits is base64 text of 4·⌈⌊n/2⌋/3⌉ characters, the length for ⌊n/2⌋ bytes; its content is stated by SignatureValueIsEncodedReversal |
| HexCodec.HexBytes | src/index.js:317 | an even-length hexadecimal text gives half as many bytes, byte i being digits 2i and 2i+1 |
| HexCodec.HexEncode | src/index.js:317 | the hexadecimal text of n bytes has 2n digits |
| HexCodec.HexBytesEncode | src/index.js:317 | reading back the hexadecimal text of any bytes gives those bytes |
| HexCodec.Reverse | src/index.js:314-320 | element i of the reversal is element n−1−i |
| HexCodec.SignatureValueIsEncodedReversal | src/index.js:228 | the `signature_value` of a hexadecimal text is the base64 encoding of its bytes in reverse order, with an odd leading digit dropped |
| HexCodec.PairsAreReversedBytes | src/index.js:314-320 | for an even-length text, the pairs read from `length − 2` down are its bytes in reverse order |
| HexCodec.ReadPairsFromEnd | src/index.js:314-320 | reading from `length − 2` down by two gives pair h−1−i as element i |
| HexCodec.ReversedBytesFromEnd | src/index.js:317 | reversing the bytes of an even-length text gives pair h−1−i as element i |
| HexCodec.BytesFromStart | src/index.js:317 | the bytes of an even-length text are its pairs in order |
| HexCodec.ReverseFromStart | src/index.js:314-320 | reversing the pairs in order gives the pairs from the end |
| HexCodec.PairAtShift | src/index.js:317 | reading a pair in a suffix is reading it at the shifted position |
| HexCodec.SignatureValuePairs | src/index.js:228 | the call with `length − 2` reads ⌊n/2⌋ pairs at `n − 2 − 2i` |
| HexCodec.LeadingDigitIgnored | src/index.js:228 | for odd length, the first digit does not affect the result |
| HexCodec.EmptySignatureValue | src/index.js:228 | an empty signature gives an empty base64 text |
| HexCodec.SignatureValueDecodes | src/index.js:228 | decoding the `signature_value` of an even-length hexadecimal signature gives its bytes reversed |
| HexCodec.SignatureValueOfBytes | src/index.js:277 | for the hexadecimal text of any bytes, the base64 result decodes to those bytes reversed |
| HexCodec.ReversalExample | src/index.js:313-323 | `"0102"` becomes `"AgE="`, the encoding of bytes 02 01 |
| DistinguishedName.OccursAtTail | src/index.js:297 | a separator occurs at j+1 of a text exactly when it occurs at j of its tail |
| DistinguishedName.FirstOccurrence | src/index.js:297 | a found separator lies inside the text |
| DistinguishedName.FirstOccurrenceIsLeftmost | src/index.js:297 | the search finds the leftmost occurrence, and finds none exactly when the separator does not occur |
| DistinguishedName.Split | src/index.js:297 | `split` with a non-empty string separator yields at least one piece |
| DistinguishedName.PrefixIsFree | src/index.js:297 | a prefix before the first occurrence does not contain the separator |
| DistinguishedName.OccurrenceCuts | src/index.js:297 | an occurrence of the separator cuts the text into the part before it, the separator and the rest |
| DistinguishedName.SplitJoinsBack | src/index.js:297 | joining the pieces with the separator restores the text |
| DistinguishedName.SplitPiecesFree | src/index.js:297 | no piece of a split contains the separator |
| DistinguishedName.SplitFree | src/index.js:297 | a text without the separator splits into itself alone |
| DistinguishedName.SplitAfter | src/index.js:297 | a piece free of the separator's first character is split off first |
| DistinguishedName.SplitJoin | src/index.js:297 | pieces free of the separator's first character are split back exactly from their join |
| DistinguishedName.FreeOfValueSeparator | src/index.js:298 | being free of the separator `=` means not containing `=` |
| DistinguishedName.Key | src/index.js:298 | `piece.split('=')[0]` is a prefix of the piece; KeyBeforeFirstEquals states that it is the text before the first `=` |
| DistinguishedName.Value | src/index.js:298 | when `piece.split('=')[1]` is undefined, the key is the whole piece; ValueBetweenEquals states the rest |
| DistinguishedName.KeyBeforeFirstEquals | src/index.js:298 | the key of a piece is the text before its first `=`, or the whole piece when there is none |
| DistinguishedName.ValueBetweenEquals | src/index.js:298 | the value is undefined exactly when the piece has no `=`; otherwise it is the text between the first and second `=` |
| DistinguishedName.Assign | src/index.js:297-299 | no pieces give the empty object, and after the assignments the last piece's key holds the last piece's value; AssignKeys and AssignLastWins state the rest |
| DistinguishedName.Converted | src/index.js:294-302 | every name, the empty one included, converts to an object with at least one key, because `split` always yields a piece; ConvertedJoin and ConvertedTwoAttributes state its content |
| DistinguishedName.ConvertStringToObj | src/index.js:294-302 | the loop over the pieces builds exactly the left fold of the assignments |
| DistinguishedName.AssignKeys | src/index.js:297-299 | the object's keys are the keys of the pieces |
| DistinguishedName.KeysOfSnoc | src/index.js:297-299 | one more piece at the end adds exactly its key to the keys |
| DistinguishedName.AssignLastWins | src/index.js:297-299 | a key holds the value of the last piece with that key |
| DistinguishedName.SplitAfterAttribute | src/index.js:297 | a piece free of `", "` is split off first, since `", "` cannot overlap itself |
| DistinguishedName.SplitJoinAttributes | src/index.js:297 | splitting on `", "` undoes joining with it, for pieces free of `", "` |
| DistinguishedName.ConvertedJoin | src/index.js:294-302 | a name joined from attributes that hold no `", "` converts to the assignments of those attributes |
| DistinguishedName.CommaFreeIsFree | src/index.js:297 | a text without a comma holds no `", "` |
| DistinguishedName.KeyValueOfAttribute | src/index.js:298 | `key=value` without other `=` has that key and value |
| DistinguishedName.AssignPair | src/index.js:297-299 | two pieces are assigned in order, the second applied after the first |
| DistinguishedName.ConvertedTwoAttributes | src/index.js:294-302 | a name `k1=v1, k2=v2` of well-formed attributes becomes the object `{k1: v1}` updated with `k2: v2` |
| DistinguishedName.ConvertedExample | src/index.js:294-302 | `CN=Smith, O=Example` becomes `{CN: "Smith", O: "Example"}` |
| DistinguishedName.PieceWithoutValue | src/index.js:298 | a piece without `=` is its own key with an undefined value |
| CertificateWalk.ItemAt | src/index.js:332 | `certificates.Item(index)` reads only inside `1..Count`, and outside it the provider throws a no-such-item fault for that index |
| CertificateWalk.Prepare | src/index.js:335-345 | the record copies every scalar field unchanged through `_prepareValue`, and both names become non-empty objects through `_convertStringToObj` |
| CertificateWalk.Contribution | src/index.js:331-346 | a readable item adds exactly its record, and one whose reading throws adds nothing |
| CertificateWalk.PrepareCertificates | src/index.js:329-352 | past `size` the list is returned; otherwise it grows by at most one record per index still to visit |
| CertificateWalk.Readable | src/index.js:330-348 | one record per readable item |
| CertificateWalk.CountReadable | src/index.js:330-348 | the count of readable items is at most the number of items |
| CertificateWalk.ReadableAppend | src/index.js:330-348 | the records of two stretches of the collection are the records of each, in order |
| CertificateWalk.ReadableSkip | src/index.js:346 | an item whose reading throws contributes nothing |
| CertificateWalk.WalkReadsRange | src/index.js:329-352 | the walk from `index` to `size` returns the list followed by the records of the readable items `index..size`, in order |
| CertificateWalk.WalkStep | src/index.js:330-349 | a step at an index inside `1..size` adds that item's contribution and moves on to `index + 1` |
| CertificateWalk.ReadableCons | src/index.js:330-348 | the first item's contribution comes before those of the rest |
| CertificateWalk.ListCertificates | src/index.js:67 | with the intended append (see Findings), `_certificates` lists, in order, the records of all readable items in `1..Count` |
| CertificateWalk.UnreadableIsSkipped | src/index.js:346-348 | an unreadable certificate yields the same listing as a store without it |
| CertificateWalk.OneUnreadableAmongReadable | src/index.js:346-348 | with one unreadable certificate among N, the listing has N−1 records, those of the others in order |
| CertificateWalk.ListingSkips | src/index.js:346-348 | the listing around an unreadable certificate is the records before it followed by those after it |
| CertificateWalk.RecordsOfReadable | src/index.js:330-348 | for two stretches of readable items, their records are those of each item, one for one and in order |
| CertificateWalk.AllReadable | src/index.js:330-348 | when every item is readable, record i is that of item i |
| CertificateWalk.PrepareCertificatesAsWritten | src/index.js:329-352 | as written, the walk never changes the length of the list it was given; AsWrittenReturnsInput states that it returns that very list |
| CertificateWalk.AsWrittenReturnsInput | src/index.js:335 | as written, the walk returns the list it was given |
| CertificateWalk.AsWrittenLosesCertificates | src/index.js:335 | as written, a store with one readable certificate lists nothing, while the intended walk lists it |
| ModeSelection.IsAsync | src/index.js:50 | asynchronous mode exactly when the plug-in has `CreateObjectAsync` |
| ModeSelection.Select | src/index.js:354-356 | the chosen implementation performs the requested operation in the requested mode |
| ModeSelection.SelectIsUnique | src/index.js:354-356 | each implementation is the only one for its operation and mode |
| ModeSelection.Certificates | src/index.js:354 | the listing handed out is the asynchronous one exactly when the plug-in is asynchronous |
| ModeSelection.Sign | src/index.js:355 | the signing routine handed out is the asynchronous one exactly when the plug-in is asynchronous |
| ModeSelection.ParamsForDetachedSignature | src/index.js:356 | the detached-signature routine handed out is the asynchronous one exactly when the plug-in is asynchronous |
| ModeSelection.SelectorsAgree | src/index.js:354-356 | the three selectors always agree on the mode |

## Left out

- The asynchronous strategy `_prepareValueAsync` and the asynchronous listing, signing and parameter routines are left out. They work on promises and generator coroutines, which this model does not represent. The asynchronous listing rejects at `store.Open()` (src/index.js:88), because `_prepareValueAsync` wraps every value in a promise, so it never reaches the walk.
- The orchestration in `_certificates`, `_sign` and `_paramsForDetachedSignature` is left out: opening and closing the store, finding a certificate, hashing and `SignHash`. These are calls into the plug-in. Only the `_hexToBase64` call on its result and the `_prepareCertificates` call are modelled.
- `console.error` on a skipped certificate and the rejection of promises on failure are left out. They are I/O, not results.
- ModeSelection.IsAsync: the throw when `window.cadesplugin` is missing is not modelled. `cadesplugin` is read once when the module loads (src/index.js:42), so without the plug-in script `_isAsync` and every selector throw a TypeError instead of returning either variant. The model takes the capability flag of an existing plug-in object.
- `window.btoa` is modelled as RFC 4648 base64 of the byte string. Its error for characters above U+00FF cannot occur, because every character comes from a two-digit hexadecimal pair.
- HexCodec.HexToBase64: requires valid hexadecimal text and `index + 2 <= length` (callers pass `length − 2`). The model does not cover malformed digit pairs, on which `parseInt` returns NaN, a partial value (`"1g"` gives 1) or a negative one (`"-1"` gives −1, which `String.fromCharCode` turns into U+FFFF, so `btoa` throws), nor `substr` past the end.
- The record's JavaScript field names (`issuer_name`, …) appear only as comments on the fields of `CertificateRecord`. JavaScript object-key quirks are not modelled: a `__proto__` key and the insertion order of keys.
- DistinguishedName.Split: requires a non-empty separator. JavaScript splits into single characters on `""`, which the source never uses (its separators are `", "` and `"="`).
- DistinguishedName.ConvertStringToObj: `_convertStringToObj` throws when the name is not a string. That case lives inside the certificate walk as an item that cannot be read, not in the function.
- CertificateWalk.PrepareValue: the synchronous strategy is the identity and is used as such. It carries no contract of its own.
- `webpack.config.js` and the build setup are not part of this model.

## Findings

| source | as written | input that shows it | evidently intended | confidence | as-written member | corrected member |
|---|---|---|---|---|---|---|
| src/index.js:335 | `list.concat({...})` builds a new array and the result is discarded, so `_prepareCertificates` returns the list it was given | a store holding one readable certificate: `_certificates` resolves with `[]` | add the record to the list (`list = list.concat(...)` or `list.push(...)`), so the walk returns one record per readable certificate | not executed | CertificateWalk.AsWrittenLosesCertificates | CertificateWalk.WalkReadsRange |
