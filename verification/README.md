# Keyczar, modelled and proved in Dafny

Keyczar is a toolkit for encrypting and signing with keysets whose keys are rotated over time. This project models
the parts of its Python and C++ libraries in which state, arithmetic and recursion meet, and proves what they promise.

* **Streams** (Python): the encrypting writer, the decrypting reader and the incremental Base64 writer and reader are
  buffered objects. Each is proved to agree with the one-shot functions, for every way of cutting the data up, every
  schedule of the source (short reads, pauses) and every sequence of requests. `Prelude`, `Base64`, `Aes`, `Streams`,
  `Base64Stream`, `EncryptingStream` and `DecryptingStream` hold them.
* **JSON** (C++): parsing and printing as functions on NUL-terminated text (`JsonText`, `JsonGrammar`), the round trip
  between them with the exact nesting bound (`JsonRoundTrip`, `JsonDocument`, `JsonParsed`), a grammar that is written
  down without a parser and that the parser accepts exactly (`JsonSyntax`, `JsonAccepts`), the printed layout
  (`JsonLayout`), UTF-8 by code points (`Utf8`), and the cursor-based parser and the appending printer as objects that
  are proved to do what the functions do (`JsonReader`, `JsonWriter`).
* **Keysets** (C++): metadata, its JSON form and what that form means (`Metadata`, `MetadataText`, `MetadataMeaning`), a
  keyset as a state machine (`KeysetModel`) with what each operation changes (`KeysetEffects`) and what every run keeps
  (`KeysetRuns`), its observers (`KeysetMirror`), reading
  (`KeysetRead`) and reloading (`KeysetReload`), and the objects that update it in place (`Keysets`). The reentrant
  observer list is `ObserverModel` and `ObserverLists`. The Python twin is `PyKeyczarModel` and `PyKeyczar`.
* **Codecs**: OAEP and its mask (`Oaep`), length-prefixed packing and attached signatures (`Packing`), unpacking
  with the slices of Python (`Unpacking`), numbers, bytes and bits (`Integers`), and file paths (`FilePaths`).

AES blocks, SHA-1 and HMAC are parameters. A key carries its block function, the inverse of it and its signing
function, and the one law asked for is that the inverse undoes the block function; a hash is a function with digests
of 20 bytes. IVs, seeds and generated keys are passed in: a stream of generated keys is a sequence that may run out,
which stands for a failure. What a reader of files yields is passed in as well.

`dafny verify dfyconfig.toml` checks the whole project.

## Where the code and its promises differ

The model follows the code. Where a promise does not hold as it is stated, the condition under which it does is
proved, and a concrete case in which it does not.

* Flushing the encrypting stream does not clear its buffer. Of all runs of writes and flushes that end in a flush, exactly
  those with one flush give the encryption of what was written (`EncryptingStream.RunStream`, with the case
  `FlushTwice`).
* A stream of at most 41 bytes is read as the empty plaintext without any check, although a short message is documented
  as an error (`DecryptingStream.ShortStreamIsReadAsEmpty`, `ReadHeaderAlone`), and padding is removed from the last
  chunk only. `DecryptingStream.Comparable` names the messages on which the reader and the one-shot decryption agree;
  `StreamAgreesWithDecrypt` proves both directions for what some schedule may lead to, and `ReadPaused` for one
  schedule. Everything that encryption produces is among them (`EncryptedMessageIsRead`).
* The Base64 reader's documentation promises never more than the number of bytes asked for, and nothing at all when the
  source has no data. It returns two bytes for one in exactly one situation (`Base64Stream.StreamReader.Read`,
  `TwoBytesForOne`), and it waits instead of returning nothing; the decrypting reader on top of it returns nothing for a
  request of zero characters only (`DecryptingStream.DecryptingStreamReader.Read`). A size of zero flushes the decoder in
  the middle of the text (`Base64Stream.SizeZeroFails`). Spaces, which the one-shot decoder strips, break chunking
  (`Base64.SpacesBreakChunking`, with the run `Base64Stream.SpaceFails`).
* The nesting limit of the JSON parser counts leaves, a dotted key is expanded into nested dictionaries, and an escape
  can write any byte, so what was parsed may not be parsed again (`JsonParsed.ReadWriteRead`, with the cases
  `EscapedByteIsLost` and `LongKeyIsLost`).
* The counter of version numbers is taken from a file without a check (`KeysetReload.TooLowIsRead`). When it names an
  existing version, a generation fails with the former primary version demoted and the counter moved on without a word
  to the observers (`KeysetRuns.GenerateIsAllOrNothingUnlessTaken`, `KeysetMirror.MirrorFailsOnlyOnTakenNumber`, with
  the case `KeysetReload.GenerationFailsHalfway`). A revoked version that the counter has not passed can come back with
  another key (`KeysetRuns.ComesBackUnlessPassed`, with the case `VersionComesBack`).
* Revoking a key leaves its alias hash in the index (`KeysetRuns.RevokedKeyStaysReachable`, with the case
  `RevokedKeyIsFound`), and adding a key writes its alias over the hash of another without a check, which then leads to
  the wrong key (`KeysetRuns.KeysSurviveRotation`, with the case `AliasMisleads`).
* The COMPAT_KEYCZAR_06B build and the files of older releases leave the counter out, and a number may then be assigned
  twice (`KeysetReload.CounterWithoutIt`, with the case `NumberIsAssignedAgain`). A public export leaves it out in every
  build, but there no number is ever assigned (`KeysetReload.ExportAssignsNothing`). The Python library never stores a
  counter (`PyKeyczarModel.NumberAfterReload`, with the case `NumberIsAssignedAgain`).
* In the Python library, generating a primary key retires the former primary version before the key exists
  (`PyKeyczarModel.StepKeepsInv`, with the case `GenerationFailsHalfway`).
* OAEP decoding checks the length before it restores the zeros that the primitive stripped, so a message may be encoded
  and never decoded (`Oaep.DecodeInvertsEncode`, with the case `SmallestModulusFails`). It does not look at the first
  byte of a text as long as the modulus, which section 7.1.2 of RFC 3447 requires to be zero, so such a text may be
  decoded although nothing encodes to it (`Oaep.AcceptedIsEncodingIfShort`, with the case `AcceptedAndNoEncoding`).
* Unpacking byte arrays accepts negative lengths, which lead it backwards: a text that is no packing may unpack
  (`Unpacking.UnpackedIsPacking`, with the case `BackwardsAndForth`), and the loop may never end
  (`Unpacking.EndsSoonOrNever`, with the case `NeverEnds`).
* The JSON parser accepts comments, also an unfinished one at the end, and with a `\u` escape keeps only the low byte of
  its number (`JsonAccepts.AcceptsTheGrammar`, `JsonSyntax.UnitsTaken`).
* An attached signature with a length from -9 to -1 is not rejected (`Packing.ParsedIsFrame`, with the case
  `NegativeLengthIsParsed`).
* Fields of 2^32 bytes are hashed with the length 0 (`Packing.LongFieldCollides`).

## Model

| member | source | states |
|---|---|---|
| Aes.DecryptInvertsEncrypt | python/src/keyczar/keys.py:425-469 | For every byte string and IV, decrypting an encrypted message gives the byte string back, through header, padding, CBC and signature. |
| Aes.EncryptionIsMessage | python/src/keyczar/keys.py:379-442 | An encrypted message byte by byte: version byte 0, the four bytes of the key hash, the IV, blocks that decrypt to the data followed by 1 to 16 bytes each equal to their number, and in the last twenty bytes the signature of everything before. |
| Aes.CbcDecryptInverts | python/src/keyczar/keys.py:425-469 | CBC decryption undoes CBC encryption on whole blocks, for every chaining block. |
| Aes.CbcEncryptBlock | python/src/keyczar/keys.py:1091-1110 | Each ciphertext block is the block function of the plaintext block combined bit by bit with the ciphertext block before it, the IV before the first. |
| Aes.CbcDecryptBlock | python/src/keyczar/keys.py:1176-1206 | Each plaintext block is the inverse of the ciphertext block combined with the ciphertext block before it. |
| Aes.CbcEncryptAppend | python/src/keyczar/keys.py:1091-1110 | Encrypting two runs of whole blocks one after the other, the second chained to the first's last ciphertext block, equals encrypting them at once. |
| Aes.CbcDecryptAppend | python/src/keyczar/keys.py:1176-1206 | The same for decryption. |
| Aes.UnPadInvertsPad | python/src/keyczar/keys.py:379-406 | Removing padding undoes adding it, for every byte string. |
| Aes.PadAppend | python/src/keyczar/keys.py:379-393 | Data behind whole blocks is padded as it would be alone, so a stream may encrypt whole blocks early. |
| Aes.NoPadBufferSize | python/src/keyczar/keys.py:408-423 | The buffer size that is used is a positive multiple of the block size. |
| Aes.VerifySignedData | python/src/keyczar/keys.py:569-587 | The comparison by the inclusive or of all exclusive ors is true exactly for equal byte strings, whatever their lengths. |
| Aes.AesKey.HeaderIsVersionAndHash | python/src/keyczar/keys.py:157-159 | A key's header is the version byte and the four bytes that its Base64 identifier stands for. |
| Base64.DecodeInvertsEncode | python/src/keyczar/util.py:344-398 | Decoding encoded bytes gives the bytes back. |
| Base64.LettersRoundTrip | python/src/keyczar/util.py:344-398 | The same on the letters alone, and their number is never one more than a multiple of four. |
| Base64.EncodedGroups | python/src/keyczar/util.py:344-357 | Every four letters have, by the values of section 5 of RFC 4648, the twenty-four bits of their three bytes, zeros where there are none; there are no more letters than the bits need. |
| Base64.DecodedGroups | python/src/keyczar/util.py:365-398 | Every group of letters stands for the bytes with its bits, those left over at the end being dropped. |
| Base64.LettersInOrder | python/src/keyczar/util.py:344-357 | The alphabet: A to Z, a to z, 0 to 9, - and _, each run in its order. |
| Base64.SpacesGo | python/src/keyczar/util.py:381-382 | A space, a line feed or a carriage return does not matter, wherever it stands. |
| Base64.DecodeAccepts | python/src/keyczar/util.py:375-398 | A text is decoded exactly when everything else in it is a letter and the number of letters is not one more than a multiple of four. |
| Base64.EncodeAppend | python/src/keyczar/util.py:512-537 | Encoding after a multiple of three bytes can be continued separately. |
| Base64.DecodeAppend | python/src/keyczar/util.py:641-664 | Decoding after a multiple of four letters can be continued separately. |
| Base64.SpacesBreakChunking | python/src/keyczar/util.py:381-382 | With spaces in the text that is false: a text that decodes as a whole and whose second part, cut after four characters, does not. |
| Base64Stream.StreamWriter.Write | python/src/keyczar/util.py:512-557 | Writing adds to the bytes given so far; what has been written is always the encoding of the whole groups of three of them. |
| Base64Stream.StreamWriter.Flush | python/src/keyczar/util.py:559-570 | After a flush the stream holds the one-shot encoding of everything that was given, with nothing held back. |
| Base64Stream.WriteAll | python/src/keyczar/util.py:572-631 | For any way of cutting data into writes followed by one flush, the text is the one-shot encoding of the data. |
| Base64Stream.StreamReader.DecodeChunk | python/src/keyczar/util.py:641-664 | A chunk decodes the whole groups of four letters that it completes and keeps the rest, fewer than four. |
| Base64Stream.StreamReader.FlushDecoder | python/src/keyczar/util.py:686-697 | At the end the remaining letters are decoded, and a single one is an error. |
| Base64Stream.StreamReader.Read | python/src/keyczar/util.py:732-832 | For text of letters and a nonzero size, what a read returns and what is still pending make up what was pending before; the empty string means the end of the text when bytes were asked for. More bytes come than were asked for exactly when one is asked for, nothing decoded is held and three letters are all that is left; otherwise the bound is kept, zero included. For any text and any two sizes the answer and the state are those of a function on values. |
| Base64Stream.TwoBytesForOne | python/src/keyczar/util.py:732-832 | A run in which one byte is asked for and two are returned. |
| Base64Stream.ReadAll | python/src/keyczar/util.py:732-832 | For text of letters, any source chunking with pauses and any nonzero sizes and numbers of bytes asked for, the reads up to the first empty one give the one-shot decoding of the whole text, or its error. |
| Base64Stream.FilledLetters | python/src/keyczar/util.py:770-795 | For letters, reading from the source moves bytes from what is to be decoded to what is decoded, whatever the source yields. |
| Base64Stream.SizeZeroFails | python/src/keyczar/util.py:826-830 | A run in which a read of size zero flushes the decoder in the middle of a text that can be decoded, and fails. |
| Base64Stream.SpaceFails | python/src/keyczar/util.py:657-664 | A run in which a read fails on a text with a space that the one-shot decoder strips. |
| EncryptingStream.EncryptingStreamWriter.Write | python/src/keyczar/keys.py:1053-1069 | A write takes in its data and leaves fewer than sixteen bytes buffered; a closed stream refuses it and nothing changes. |
| EncryptingStream.EncryptingStreamWriter.Flush | python/src/keyczar/keys.py:1071-1080 | The first flush makes the output the one-shot encryption of everything written; the buffer is not cleared. |
| EncryptingStream.EncryptingStreamWriter.Close | python/src/keyczar/keys.py:1082-1089 | Closing twice is an error and changes nothing. |
| EncryptingStream.EncryptStream | python/src/keyczar/keys.py:1023-1110 | For any way of splitting data into writes followed by one flush, the bytes written equal the one-shot encryption of the data with the same IV, and are a message of the data byte by byte, padding and signature included. |
| EncryptingStream.EncryptStreamToText | python/src/keyczar/keys.py:1023-1110 | The same through the Base64 writer: the text equals the one-shot encoding of the one-shot encryption. |
| EncryptingStream.RunStream | python/src/keyczar/keys.py:1053-1080 | For any writes and flushes in any order that end in a flush, the output is the one-shot encryption of everything written exactly when that flush is the only one; with no flush or more than one it never is. |
| EncryptingStream.FlushTwice | python/src/keyczar/keys.py:1071-1080 | A run with two flushes, after which the output is longer than the encryption of the data. |
| DecryptingStream.DecryptingStreamReader.Read | python/src/keyczar/keys.py:1148-1228 | Each read returns the next bytes of the plaintext, at most as many as asked for, and terminates by a measure on the source; the empty string comes only when the whole message was checked and delivered; only a read of zero characters returns nothing at all. |
| DecryptingStream.DecryptingStreamReader.ReadBytes | python/src/keyczar/keys.py:1243-1261 | Gathers exactly what the source yields, at least the size asked for unless the source has ended, across pauses. |
| DecryptingStream.DecryptingStreamReader.CreateKey | python/src/keyczar/keys.py:1263-1287 | The header is read whole before the key is looked up, and the key is the one that the one-shot decryption finds, or the error the same; which error that is, DecryptReports says. |
| DecryptingStream.DecryptingStreamReader.CreateCipher | python/src/keyczar/keys.py:1289-1306 | The IV is read whole before the cipher is made; no zero-byte request is made to the source. |
| DecryptingStream.DecryptingStreamReader.Gather | python/src/keyczar/keys.py:1176-1195 | Before the end, the last block and the signature are held back; only whole blocks before them are handed out. |
| DecryptingStream.DecryptingStreamReader.DecryptBlocks | python/src/keyczar/keys.py:1200-1216 | Before the end whole blocks are decrypted, cipher, signature and plaintext stay in step, and what is held back is enough for one more block and the signature and less than for two. |
| DecryptingStream.DecryptingStreamReader.Verify | python/src/keyczar/keys.py:1200-1213 | At the end the tail is exactly the last ciphertext and the signature; the signature is checked against everything received. |
| DecryptingStream.DecryptingStreamReader.Finish | python/src/keyczar/keys.py:1205-1218 | When the signature matches, padding is removed from the last chunk and the plaintext is complete. |
| DecryptingStream.ReadAll | python/src/keyczar/keys.py:1117-1306 | Reading any source to its end has the outcome of the whole message, whatever the source's chunks and pauses and the sizes asked for; a wrong version or an unknown key is reported exactly when the first five bytes say so. |
| DecryptingStream.DecryptStream | python/src/keyczar/keys.py:1117-1306 | For every message that encryption made, every schedule of the source and every sequence of nonzero reads, the results up to the first empty one concatenate to the plaintext. |
| DecryptingStream.DecryptTextStream | python/src/keyczar/keys.py:1117-1306 | The same on top of the incremental Base64 reader over the encoded message. |
| DecryptingStream.StreamAgreesWithDecrypt | python/src/keyczar/keys.py:444-469 | The outcomes that some schedule may lead to (padding removed from a last chunk that starts at any block) are the one-shot outcome and no other, exactly for messages longer than header, IV and signature whose last plaintext byte is a padding length (or that have one block), or whose key is unknown, and that are whole blocks or authentic. |
| DecryptingStream.DecryptReports | python/src/keyczar/keys.py:444-469 | Which error the one-shot decryption reports, for every message: a wrong version, an unknown key, one that is too short, a wrong signature, no whole blocks or none at all, each exactly under a condition on the bytes. |
| DecryptingStream.StreamReports | python/src/keyczar/keys.py:1160-1228 | Which error the reader's outcome is, for every message, each exactly under a condition on the bytes. |
| DecryptingStream.UnknownKeyIsReported | python/src/keyczar/keyczar.py:513-566 | A message of a key that is not in the keyset is reported as that and nothing else, in one shot and as a stream. |
| DecryptingStream.ReadPaused | python/src/keyczar/keys.py:1148-1228 | For every message there is a schedule, all bytes at hand and one pause before the end, with which the reader object agrees with the one-shot decryption exactly on those messages, whatever sizes are asked for. |
| DecryptingStream.ShortStreamIsReadAsEmpty | python/src/keyczar/keys.py:1160 | A message of at most 41 bytes that has a known key, or no whole header, has the empty outcome and no other, and in one shot it is an error. |
| DecryptingStream.ReadHeaderAlone | python/src/keyczar/keys.py:1148-1228 | A run in which the header of a key, alone, is read as the empty text. |
| DecryptingStream.UnpaddingIsChunkIndependent | python/src/keyczar/keys.py:395-406 | Removing padding from the last chunk alone gives one result wherever that chunk starts exactly when the last byte is from 1 to 16 or there is one block. |
| DecryptingStream.EncryptedMessageIsRead | python/src/keyczar/keys.py:1148-1228 | For encrypted messages the reader's outcome is the plaintext, the same as the one-shot result. |
| JsonDocument.WriteThenRead | cpp/src/keyczar/base/json_reader.cc:104-160 | Printing then parsing a value (32-bit integers, distinct keys without dots), compactly or prettily, gives the value exactly when it is a list or dictionary of height at most 100, leaves counted, whose strings are UTF-8, and is rejected otherwise. |
| JsonDocument.EscapeIsUtf8 | cpp/src/keyczar/base/string_escape.cc:49-69 | Escaping neither makes nor breaks UTF-8. |
| JsonDocument.StrictIsRestriction | cpp/src/keyczar/base/json_reader.cc:158-308 | If the strict parser yields a value for a text, the lenient one yields the same value. |
| JsonAccepts.AcceptsTheGrammar | cpp/src/keyczar/base/json_reader.cc:104-160 | The parser accepts a text as a value exactly when the text is UTF-8 and is written out from some tree of the grammar (numbers, strings, lists, dictionaries, with spaces and comments anywhere, and perhaps an unfinished comment at the end) that stands for the value, has at most 100 levels, and has commas after last members only where they are allowed. |
| JsonAccepts.TreeTaken | cpp/src/keyczar/base/json_reader.cc:158-308 | Every text written out from such a tree is parsed as the value it stands for, leaving the text behind it. |
| JsonAccepts.TreeFound | cpp/src/keyczar/base/json_reader.cc:158-308 | Whatever is parsed was written out from such a tree. |
| JsonSyntax.SpaceFound | cpp/src/keyczar/base/json_reader.cc:544-601 | What is skipped in front of a token are spaces, line comments and block comments, each up to its first end. |
| JsonSyntax.NumeralTaken | cpp/src/keyczar/base/json_reader.cc:310-345 | A numeral in front of what may follow a number is one token. |
| JsonSyntax.NumeralFound | cpp/src/keyczar/base/json_reader.cc:310-345 | Every number token is a numeral: a sign, digits without leading zeros, and perhaps a fraction and an exponent. |
| JsonSyntax.NumeralIsValue | cpp/src/keyczar/base/json_reader.cc:347-352 | Its value is the sum of the digits of the whole part by their weights, cut to 32 bits. |
| JsonSyntax.UnitsTaken | cpp/src/keyczar/base/json_reader.cc:354-459 | Plain characters and escapes up to a closing quote are scanned and decoded as what they stand for; of four hexadecimal digits only the last two matter. |
| JsonSyntax.UnitsFound | cpp/src/keyczar/base/json_reader.cc:354-459 | Every string token is made of them. |
| JsonLayout.ListLayout | cpp/src/keyczar/base/json_writer.cc:80-104 | A list is printed on one line, its items joined by a comma, or by a comma and a space with spaces at both ends. |
| JsonLayout.DictionaryLayout | cpp/src/keyczar/base/json_writer.cc:106-146 | A dictionary is printed with its entries joined by commas, or each on a line of its own, ended by CR LF and indented by three spaces for each level. |
| JsonLayout.EscapesWritten | cpp/src/keyczar/base/string_escape.cc:15-69 | Which characters are escaped and how: eight by a letter, the other control characters and 127 by two hexadecimal digits, and no others. |
| JsonLayout.EscapedInOrder | cpp/src/keyczar/base/string_escape.cc:49-69 | An escaped string is made of the escapes of its characters in their order. |
| Utf8.Utf8IsEncodings | cpp/src/keyczar/base/string_util.cc:116-201 | The UTF-8 check accepts exactly the concatenations of the encodings, by arithmetic on code points, of numbers up to 10FFFF without surrogates and without the last two of each plane. |
| Utf8.CharactersSurvive | cpp/src/keyczar/base/json_reader.cc:128-156 | A string survives printing and parsing exactly when it is such a concatenation. |
| JsonParsed.ReadWriteRead | cpp/src/keyczar/base/json_reader.cc:128-156 | What was parsed from any text is well formed, and printed and parsed again it is the same exactly when its height is at most 100 and its strings are UTF-8; otherwise the second parse fails. |
| JsonParsed.EscapedByteIsLost | cpp/src/keyczar/base/json_reader.cc:433-437 | A text with the escape of the byte 80: it is parsed, and what is printed for its value is not. |
| JsonParsed.LongKeyIsLost | cpp/src/keyczar/base/json_reader.cc:266-270 | A text whose one key has n parts is parsed for every n, and what is printed for its value is parsed again exactly when n is less than 100. |
| JsonParsed.BuiltIsWellFormed | cpp/src/keyczar/base/json_reader.cc:158-308 | Everything the parser builds has sorted distinct keys without dots and 32-bit integers. |
| JsonParsed.SetKeyWellFormed | cpp/src/keyczar/base/json_reader.cc:266-270 | Setting a key replaces or inserts it, keeps the others, and keeps a dictionary sorted. |
| JsonParsed.SetPathStores | cpp/src/keyczar/base/values.cc:259-285 | What is set at a dotted path is found there part by part. |
| JsonParsed.SetPathKeeps | cpp/src/keyczar/base/values.cc:259-285 | What is found at any other path, of which neither leads through the other, stays as it was. |
| JsonParsed.LessMeans | cpp/src/keyczar/base/json_reader.cc:242-300 | The order in which a dictionary keeps its keys: the first difference decides, and a proper beginning comes first. |
| JsonRoundTrip.ValuePrinted | cpp/src/keyczar/base/json_writer.cc:40-151 | A printed value in front of any text that ends it is parsed as that value, leaving that text, up to the nesting limit. |
| JsonText.EscapeRoundTrip | cpp/src/keyczar/base/string_escape.cc:49-69 | An escaped string up to its closing quote is scanned and unescaped to the string, for every string. |
| JsonText.IntRoundTrip | cpp/src/keyczar/base/json_reader.cc:347-352 | The text of an integer reads as the integer within 32 bits. |
| JsonReader.Reader.EatWhitespaceAndComments | cpp/src/keyczar/base/json_reader.cc:544-563 | Skips exactly the spaces and comments in front, and never past the NUL. |
| JsonReader.Reader.EatComment | cpp/src/keyczar/base/json_reader.cc:565-601 | Skips a line or block comment if there is one; an unclosed block comment ends at the NUL. |
| JsonReader.Reader.ParseNumberToken | cpp/src/keyczar/base/json_reader.cc:310-345 | Accepts exactly the numbers of section 2.4 of RFC 4627. |
| JsonReader.Reader.ParseStringToken | cpp/src/keyczar/base/json_reader.cc:354-397 | Accepts exactly the strings whose escapes are all valid and that are closed before the NUL; hexadecimal digits are looked at only inside the text. |
| JsonReader.Reader.DecodeString | cpp/src/keyczar/base/json_reader.cc:399-459 | On every accepted token it consumes exactly the interior and reaches neither its unreachable case nor that of the digit conversion. |
| JsonReader.Reader.DecodeUnit | cpp/src/keyczar/base/json_reader.cc:405-452 | One turn of that loop: the character that a plain or escaped one stands for, and how much of the text it takes. |
| JsonReader.Reader.ParseToken | cpp/src/keyczar/base/json_reader.cc:461-532 | The next token after spaces and comments, with the cursor in bounds. |
| JsonReader.Reader.NextStringMatch | cpp/src/keyczar/base/json_reader.cc:534-542 | Matches a word at the cursor without reading past the NUL. |
| JsonReader.Reader.ParseList | cpp/src/keyczar/base/json_reader.cc:203-240 | Parses the items of a list as the grammar does, restoring the nesting count, and terminates. |
| JsonReader.Reader.ParseDictionary | cpp/src/keyczar/base/json_reader.cc:242-300 | The same for the entries of a dictionary. |
| JsonReader.Reader.BuildValue | cpp/src/keyczar/base/json_reader.cc:158-308 | The recursive parser agrees with the grammar on every NUL-terminated text, keeps the cursor within it, restores the nesting count and terminates. |
| JsonReader.Reader.JsonToValue | cpp/src/keyczar/base/json_reader.cc:128-156 | The whole parse yields a value exactly when the text up to its first NUL is UTF-8 and a document of the grammar that stands for that value. |
| JsonWriter.Writer.AppendQuotedString | cpp/src/keyczar/base/string_escape.cc:49-69 | The loop over characters appends exactly the quoted and escaped string. |
| JsonWriter.Writer.BuildJSONString | cpp/src/keyczar/base/json_writer.cc:40-151 | The recursion over the shared string appends exactly the printed form, compact or pretty. |
| JsonWriter.WriteAndRead | cpp/src/keyczar/base/json_writer.cc:23-32 | Writer and reader together: the value back exactly up to height 100, rooted in a list or dictionary and with UTF-8 strings. |
| Metadata.FromValueInvertsToValue | cpp/src/keyczar/keyset_metadata.cc:100-216 | Reading back written metadata restores it exactly with the counter; without, up to the counter, which becomes the least one above all versions. |
| Metadata.CounterIsLostUnlessLeast | cpp/src/keyczar/keyset_metadata.cc:198-203 | Without the counter the metadata comes back unchanged exactly when the counter was that least one. |
| Metadata.VersionRoundTrip | cpp/src/keyczar/keyset_metadata.cc:30-74 | A version read back from its value is the same version. |
| Metadata.NamesRoundTrip | cpp/src/keyczar/keyset_metadata.cc:110-124 | Every status, type and purpose is recovered from its name. |
| MetadataMeaning.FromValueMeans | cpp/src/keyczar/keyset_metadata.cc:100-175 | A value is read as some metadata exactly when it has the fields, all versions can be read, their numbers, those without one counted up from the counter, are all different, the map holds each version under its number and nothing else, and the counter is the stored one moved on, or the least above all numbers. |
| MetadataMeaning.AddedTogether | cpp/src/keyczar/keyset_metadata.cc:152-172 | A list of versions is added exactly when their numbers, assigned in turn where there are none, are free and different; each is then under its number and nothing else has changed but the counter. |
| MetadataMeaning.VersionMeans | cpp/src/keyczar/keyset_metadata.cc:30-63 | A value is read as a version exactly when its three fields are those of the version and the number is not negative. |
| MetadataMeaning.OnlyFieldsWritten | cpp/src/keyczar/keyset_metadata.cc:177-216 | Written metadata has its five fields, the counter unless it is a public export, and no others. |
| MetadataMeaning.VersionsWritten | cpp/src/keyczar/keyset_metadata.cc:205-216 | The versions are written in order, each with its three fields and no other. |
| Metadata.ToValueLookups | cpp/src/keyczar/keyset_metadata.cc:177-216 | What each field of written metadata holds. |
| MetadataText.MetadataSurvivesText | cpp/src/keyczar/keyset_metadata.cc:100-216 | The same through JSON text, compact or pretty, strict or lenient. |
| Keysets.KeysetMetadata.AddVersion | cpp/src/keyczar/keyset_metadata.cc:218-233 | Assigns the counter to a version without number, moves the counter on even when the number is taken, and adds the version only if it is not. |
| Keysets.KeysetMetadata.RemoveVersion | cpp/src/keyczar/keyset_metadata.cc:235-241 | Takes out one version, or reports that there is none. |
| Keysets.KeysetMetadata.CreateFromValue | cpp/src/keyczar/keyset_metadata.cc:100-175 | Builds the metadata that the value describes or fails exactly when it describes none. |
| Keysets.KeysetMetadata.AddVersions | cpp/src/keyczar/keyset_metadata.cc:152-172 | The loop adds all versions or fails with the first that cannot be added, and computes the least counter above all of them. |
| Keysets.KeysetMetadata.GetValue | cpp/src/keyczar/keyset_metadata.cc:177-216 | Builds the value with the versions in ascending order. |
| Keysets.Keyset.SetMetadata | cpp/src/keyczar/keyset.cc:83-87 | Replaces the metadata and tells the observers, leaving indexes and primary number alone. |
| Keysets.Keyset.SetEncrypted | cpp/src/keyczar/keyset.cc:89-95 | Changes the one field and tells the observers. |
| Keysets.Keyset.AddKey | cpp/src/keyczar/keyset.cc:128-152 | Indexes a key under version, hash and alias, or changes nothing: the new state is that of the model. |
| Keysets.Keyset.RemoveKey | cpp/src/keyczar/keyset.cc:473-490 | Erases a key under its version and hash, but not under its alias. |
| Keysets.Keyset.UpdateKeyStatus | cpp/src/keyczar/keyset.cc:447-471 | Gives a version its status in place, demoting the former primary first; observers are told after each change. |
| Keysets.Keyset.PromoteKey | cpp/src/keyczar/keyset.cc:266-288 | The new state and answer are those of the model's promotion, of which KeysetEffects.PromoteClimbs says what it does. |
| Keysets.Keyset.DemoteKey | cpp/src/keyczar/keyset.cc:290-314 | The new state and answer are those of the model's demotion, of which KeysetEffects.DemoteDescends says what it does. |
| Keysets.Keyset.RevokeKey | cpp/src/keyczar/keyset.cc:316-340 | Takes out an INACTIVE version and its key, and tells the observers even when the key was not loaded. |
| Keysets.Keyset.AddKeyVersion | cpp/src/keyczar/keyset.cc:492-505 | Adds a version that has no number under a new one, making it primary if it is to be; a version with a number, and a keyset without metadata, are refused. |
| Keysets.Keyset.RemoveKeyVersion | cpp/src/keyczar/keyset.cc:507-525 | Takes out a version and tells the observers, or changes nothing. |
| Keysets.Keyset.MakeKey | cpp/src/keyczar/keyset.cc:162-171 | The do-while loop ends with the first key whose hash is new, or with the failure that comes first. |
| Keysets.Keyset.GenerateKey | cpp/src/keyczar/keyset.cc:154-192 | The new state and number are those of the model, for every stream of generated keys. |
| Keysets.Keyset.ReadVersion | cpp/src/keyczar/keyset.cc:46-73 | One turn of the reading loop: the key is loaded if wanted, and a second primary version is refused. |
| Keysets.Keyset.ReadVersions | cpp/src/keyczar/keyset.cc:43-74 | The reading loop goes through all versions or stops at the first failure, as the model. |
| Keysets.Keyset.Read | cpp/src/keyczar/keyset.cc:24-81 | Reads a keyset or fails, exactly as the model; observers see nothing of it. |
| KeysetEffects.PromoteClimbs | cpp/src/keyczar/keyset.cc:266-288 | Promotion succeeds exactly for a version that exists and is not primary, and takes it one rung up the ladder of INACTIVE, ACTIVE and PRIMARY; every other version keeps its status, but that the former primary becomes ACTIVE exactly when its place is taken, and nothing but statuses and the primary number changes. |
| KeysetEffects.DemoteDescends | cpp/src/keyczar/keyset.cc:290-314 | Demotion succeeds exactly for a version that exists and is not inactive, and takes it one rung down; every other version keeps its status, and the primary number becomes 0 exactly when it was the primary version. |
| KeysetEffects.DemoteUndoesPromote | cpp/src/keyczar/keyset.cc:266-314 | Promoting an inactive version and demoting it again leaves metadata, primary number and indexes as they were. |
| KeysetEffects.RevokeTakesOut | cpp/src/keyczar/keyset.cc:316-340 | Revoking succeeds exactly for an inactive version and takes out the version, its key and the hash of the key, telling the observers the metadata and then the number. |
| KeysetEffects.AddKeyAdds | cpp/src/keyczar/keyset.cc:128-152 | A key is added exactly under a version that exists and has none, with a hash that leads to no key, and is then found under version, hash and alias. |
| KeysetEffects.KeyVersionAdds | cpp/src/keyczar/keyset.cc:492-505 | A version added gets the counter as its number unless that is taken, when only the counter changes; a new primary version makes the former one ACTIVE and no other version changes. |
| KeysetEffects.AddVersionAdds | cpp/src/keyczar/keyset_metadata.cc:218-233 | A version without a number gets the counter, which moves on in any case; a version is added exactly when its number is not taken. |
| KeysetRuns.EveryRunIsConsistent | cpp/src/keyczar/keyset.cc:83-192 | From a fresh keyset with version-free metadata, after any run of generate, add, promote, demote, revoke and set-encrypted: at most one version is PRIMARY, the primary number is 0 or names it, every indexed key has a version and an indexed hash, and no two keys share one. |
| KeysetRuns.RunKeepsInv | cpp/src/keyczar/keyset.cc:266-525 | The same from any consistent keyset, such as one that was read. |
| KeysetRuns.StepKeepsInv | cpp/src/keyczar/keyset.cc:266-525 | Each operation keeps that invariant. |
| KeysetRuns.FirstFreshIsFirst | cpp/src/keyczar/keyset.cc:162-171 | Key generation stops at the first new hash. |
| KeysetRuns.GenerateAllOrNothing | cpp/src/keyczar/keyset.cc:154-192 | With a counter above all versions, generation returns 0 and changes nothing, or returns the counter and the state has exactly the one new version and key, the former primary demoted if the new one is primary. |
| KeysetRuns.GenerateIsAllOrNothingUnlessTaken | cpp/src/keyczar/keyset_metadata.cc:133-144 | Generation fails with a changed state exactly when a key could be made but the counter, which a file may set to anything, names an existing version. |
| KeysetRuns.RollbackIsNeverReached | cpp/src/keyczar/keyset.cc:186-189 | Once the version was added, adding the key cannot fail, so the removal inside the debug check is not needed. |
| KeysetRuns.GenerateEffect | cpp/src/keyczar/keyset.cc:154-192 | All outcomes of generation, from any consistent state: nothing, the half-done change when the counter names a version, or exactly the one new version and key. |
| KeysetRuns.RunKeepsSameKeys | cpp/src/keyczar/keyset.cc:128-152 | From any consistent keyset in which the hash index and the version index hold exactly the same keys, they do after any run that adds no key with an alias. |
| KeysetReload.ReadHasSameKeys | cpp/src/keyczar/keyset.cc:24-76 | A keyset that was just read has the same keys in both indexes when none of them has an alias. |
| KeysetRuns.RunKeepsOwnNames | cpp/src/keyczar/keyset.cc:143-148 | With aliases, a key is still found under nothing but its own hash or alias after any run. |
| KeysetRuns.RevokedKeyStaysReachable | cpp/src/keyczar/keyset.cc:473-490 | A revoked key can still be looked up exactly when it has an alias different from its hash that still leads to it. |
| KeysetRuns.RevokedKeyIsFound | cpp/src/keyczar/keyset.cc:473-490 | A concrete run in which that happens. |
| KeysetRuns.KeysSurviveRotation | cpp/src/keyczar/keyset.cc:105-110 | A version below the counter, or one that is not revoked, that still exists after any run has the key it had at the start; its hash still leads to that key exactly when no key was added whose alias is that hash. |
| KeysetRuns.StepKeepsKey | cpp/src/keyczar/keyset.cc:143-148 | The same for one operation, whether or not the hash led to the key before. |
| KeysetRuns.AliasMisleads | cpp/src/keyczar/keyset.cc:146-148 | A run in which the alias of a second key is the hash of the first, which then leads to the second. |
| KeysetRuns.OnlyRevokingRemoves | cpp/src/keyczar/keyset.cc:316-340 | From any consistent keyset, a version that is not revoked still exists after any run. |
| KeysetRuns.StepKeepsCounter | cpp/src/keyczar/keyset_metadata.cc:218-233 | No operation moves the counter back; a number that is assigned is the counter, which then moves on by one. |
| KeysetRuns.GoneStaysGone | cpp/src/keyczar/keyset.cc:316-340 | A version below the counter that does not exist never comes back. |
| KeysetRuns.ComesBackUnlessPassed | cpp/src/keyczar/keyset_metadata.cc:218-233 | Some run makes a version that does not exist exactly when the counter has not passed its number. |
| KeysetRuns.VersionComesBack | cpp/src/keyczar/keyset_metadata.cc:133-144 | A run, with a counter that is too low, in which a version is revoked and comes back with another key. |
| KeysetReload.TooLowIsRead | cpp/src/keyczar/keyset_metadata.cc:133-144 | A keyset whose counter names an existing version is read without complaint. |
| KeysetReload.GenerationFailsHalfway | cpp/src/keyczar/keyset.cc:173-192 | From such a keyset, a primary generation that returns 0 with the former primary retired and the counter moved; an observer that knew the keyset does not know it any more. |
| KeysetMirror.ObserverMirrors | cpp/src/keyczar/keyset.h:65-79 | An observer attached before the first metadata mirrors the keyset after any run: last metadata, keys told less keys revoked, and no metadata with two primary versions ever, not even inside an operation. |
| KeysetMirror.StepMirrors | cpp/src/keyczar/keyset.cc:447-525 | Each operation keeps the mirror. |
| KeysetMirror.MirrorFailsOnlyOnTakenNumber | cpp/src/keyczar/keyset_metadata.cc:218-233 | A generation leaves the observer wrong exactly when a key could be made but the counter names an existing version. |
| KeysetRead.ReadOutcome | cpp/src/keyczar/keyset.cc:24-81 | A keyset can be read exactly when its metadata can, at most one version is primary and every version has a key whose hash is not the hash or alias of a version before it; what is read is consistent. |
| KeysetRead.FromValueIsValid | cpp/src/keyczar/keyset_metadata.cc:130-172 | Read metadata has positive numbers under themselves; without a counter in the value, the computed one is above all versions. |
| KeysetReload.ReloadRestores | cpp/src/keyczar/keyset.cc:24-76 | A keyset of alias-free keys, written with its counter and read back, is the same keyset: metadata, primary number and both indexes. |
| KeysetReload.MetadataOnlyRestores | cpp/src/keyczar/keyset.cc:78-81 | Read back without keys, it has the same metadata and primary number and no keys. |
| KeysetReload.NumbersAreNew | cpp/src/keyczar/keyset_metadata.cc:218-224 | Over any run that mixes operations, revocations and reloads, from any consistent keyset, the assigned version numbers strictly increase from the counter on; with a counter above all versions none of them was in use before. |
| KeysetReload.CounterWithoutIt | cpp/src/keyczar/keyset_metadata.cc:198-203 | Through a form without the counter, the counter never moves forward, and stays the same exactly when nothing was assigned yet or the version assigned last still exists. |
| KeysetReload.NumberIsAssignedAgain | cpp/src/keyczar/keyset_metadata.cc:198-203 | A run, as the COMPAT_KEYCZAR_06B build and files of older releases without the counter allow it, in which a number is therefore assigned twice. |
| KeysetReload.ExportAssignsNothing | cpp/src/keyczar/keyset.cc:342-440 | From the metadata that a public export writes, read back with any keys, no run assigns any number, because keys of public types are neither generated nor imported. |
| KeysetReload.PublicAct | cpp/src/keyczar/key.cc:72-125 | No operation and no reload of a keyset of a public type assigns a number or changes the type. |
| ObserverModel.RunKeepsInv | cpp/src/keyczar/base/observer_list.h:85-157 | In any interleaving of iterations, additions and removals no live iterator points outside the list, observers stay distinct, and no empty slots remain once no iteration is live. |
| ObserverModel.IterationsDoNotChangeTheList | cpp/src/keyczar/base/observer_list.h:85-157 | Adding and removing act on the list of present observers as if nobody iterated, and iterating never changes it. |
| ObserverModel.PresentThroughoutIsReturnedOnce | cpp/src/keyczar/base/observer_list.h:114-143 | An observer present from the beginning of an iteration until it is done is returned exactly once, in both modes. |
| ObserverModel.DoneReturnsWhatStays | cpp/src/keyczar/base/observer_list.h:114-143 | An observer not yet passed that stays is returned exactly once more, also when added meanwhile, except by an iteration over existing observers only. |
| ObserverModel.AbsentIsNotReturned | cpp/src/keyczar/base/observer_list.h:92-102 | An observer that was removed before its turn is not returned unless it is added again. |
| ObserverLists.ObserverList.RemoveObserver | cpp/src/keyczar/base/observer_list.h:92-102 | Empties the observer's slot while iterations are live and erases it otherwise. |
| ObserverLists.ObserverList.Compact | cpp/src/keyczar/base/observer_list.h:148-157 | Erases exactly the empty slots, in place and in order. |
| ObserverLists.Iterator.constructor | cpp/src/keyczar/base/observer_list.h:116-123 | Beginning an iteration fixes its maximum and deepens the list's count. |
| ObserverLists.Iterator.Finish | cpp/src/keyczar/base/observer_list.h:125-128 | Ending the last iteration compacts the list. |
| ObserverLists.Iterator.GetNext | cpp/src/keyczar/base/observer_list.h:130-137 | Skips empty slots up to the maximum and returns the next observer, if any. |
| ObserverLists.Perform | cpp/src/keyczar/base/observer_list.h:59-157 | The list object with any number of live iterator objects does what the model does, operation by operation. |
| Oaep.DecodeInvertsEncode | python/src/keyczar/keys.py:715-754 | For every message that fits and every seed, decoding what the primitive leaves of the encoding gives the message exactly when at least 2*20+2 bytes are left; otherwise it is rejected as too small (section 7.1 of RFC 3447 has no such case). |
| Oaep.AcceptedIsEncodingIfShort | python/src/keyczar/keys.py:715-754 | Of the texts without leading zeros that are decoded, exactly those shorter than the modulus are the encoding of the result with some seed; one as long as the modulus is decoded although its first byte is not zero, which section 7.1.2 of RFC 3447 forbids. |
| Oaep.AcceptedAndNoEncoding | python/src/keyczar/keys.py:720-731 | Such a text of 42 bytes that is decoded and encodes nothing. |
| Oaep.SmallestModulusFails | python/src/keyczar/keys.py:720-722 | With a modulus of 42 bytes the empty message can be encoded and is never decoded. |
| Oaep.MaskLength | python/src/keyczar/util.py:482-502 | The mask has exactly the requested length. |
| Oaep.EncodedByBytes | python/src/keyczar/keys.py:936-957 | Section 7.1.1 of RFC 3447 byte by byte: a zero byte, the seed combined with a mask made of what follows it, and the data block (hash of the label, zeros, a one, the message) combined with a mask made of the seed. |
| Oaep.EncodeReports | python/src/keyczar/keys.py:936-957 | When encoding fails, and with which error. |
| Oaep.DecodeReports | python/src/keyczar/keys.py:715-754 | Beyond the length checks, decoding fails exactly when the label's hash is not in front, when only zeros follow it, or when the first other byte is no one; what follows a one is the message. |
| Oaep.MGF | python/src/keyczar/util.py:482-502 | The loop over counters fails beyond 2^32 digests, and otherwise gives bytes of which the i-th is byte i mod 20 of the hash of the seed followed by the four bytes, most significant first, of the number i / 20. |
| Oaep.PaddedXorCancels | python/src/keyczar/util.py:293-304 | The exclusive or is its own inverse at equal lengths. |
| Oaep.PaddedXorByBytes | python/src/keyczar/util.py:293-304 | Strings of any lengths are combined byte by byte from their ends, zeros standing in front of the shorter one. |
| Prelude.XorByBits | python/src/keyczar/util.py:293-304 | The exclusive or of two numbers has a bit exactly where one of them has it and the other does not. |
| Packing.PackAllFails | python/src/keyczar/util.py:400-419 | Packing succeeds exactly when every array is shorter than 2^31. |
| Packing.PackOne | python/src/keyczar/util.py:400-419 | Each array that is there is packed as the four bytes of its length and the array, in front of the others. |
| Packing.PackedInFull | python/src/keyczar/util.py:400-419 | A packed text in full, the number of arrays in front, those that are None counted. |
| Unpacking.UnpackingInvertsPacking | python/src/keyczar/util.py:400-444 | Unpacking gives back the byte arrays that were packed, in order, those that were None left out. |
| Unpacking.UnpackedIsPacking | python/src/keyczar/util.py:421-444 | What unpacks from a position on is the result packed again exactly when none of the lengths that are read is negative. |
| Unpacking.BackwardsAndForth | python/src/keyczar/util.py:421-444 | A text of eight bytes whose second length leads back to its start: it unpacks, and is no packing of the result. |
| Unpacking.NeverEnds | python/src/keyczar/util.py:431-444 | A text of eight bytes on which no number of rounds is enough. |
| Unpacking.SameResult | python/src/keyczar/util.py:431-444 | What unpacking comes to does not depend on how many rounds are allowed. |
| Unpacking.EndsSoonOrNever | python/src/keyczar/util.py:431-444 | Unpacking ends exactly when it ends within twice as many rounds as there are bytes, and one. |
| Unpacking.UnpackMultipleByteArrays | python/src/keyczar/util.py:431-444 | On every text on which it ends, the loop gives that result. |
| Unpacking.UnpackReports | python/src/keyczar/util.py:421-444 | Fewer than four bytes left are reported as such, and an array that would end behind the text as a failed assertion. |
| Unpacking.SliceMeans | python/src/keyczar/util.py:421-429 | A slice between any two positions: negative ones count from the end, and what lies outside is cut off. |
| Packing.IntRoundTrip | python/src/keyczar/util.py:284-287 | Four bytes and 32-bit integers are inverse to each other, negative ones included; other integers wrap around. |
| Packing.Int32ToByteString | cpp/src/keyczar/util.cc:32-39 | The loop over shifts writes the four bytes, and reading them gives the number. |
| Packing.ByteStringToInt32 | cpp/src/keyczar/util.cc:41-53 | The loop reads four bytes at an offset if they are there, wrapping around at each step. |
| Packing.SafeStringEquals | cpp/src/keyczar/util.cc:22-30 | The comparison that never stops early is true exactly for equal strings. |
| Packing.PrefixInputIsInjective | python/src/keyczar/util.py:330-336 | The bytes fed to the hash determine the list of fields, as long as these are shorter than 2^32. |
| Packing.FedInFull | python/src/keyczar/util.py:330-336 | What is fed for two fields in full, the lengths in four bytes in front of each. |
| Packing.LongFieldCollides | python/src/keyczar/util.py:330-336 | A field of 2^32 bytes is fed like so many empty fields. |
| Packing.MessageDeterminesParts | cpp/src/keyczar/keyczar.cc:381-390 | Among hidden values of equal length, the message to sign determines data and hidden value. |
| Packing.LengthsMatter | cpp/src/keyczar/keyczar.cc:381-390 | With different lengths it does not: two different pairs with the same message. |
| Packing.BuildMessageToSign | cpp/src/keyczar/keyczar.cc:381-390 | Appends in place, giving data in front, length and hidden value if there is one, and the version byte 0 at the end. |
| Packing.MessageIs | cpp/src/keyczar/keyczar.cc:381-390 | The message to sign in its parts: the data in front, then the length of the hidden value, most significant byte first, and the value if there is one, and a zero byte at the end. |
| Packing.ParseAttachedSignature | cpp/src/keyczar/keyczar.cc:399-427 | Parses header, data and signature with C++'s arithmetic: it accepts a length from -9 to -1. |
| Packing.ParsedInvertsFrame | cpp/src/keyczar/keyczar.cc:502-516 | Parsing a framed signature gives its parts exactly when the data is no longer than 2^31-10 bytes. |
| Packing.ParsedIsFrame | cpp/src/keyczar/keyczar.cc:399-427 | What is parsed is the frame of its parts exactly when the length in it is not negative. |
| Packing.ParsedWhen | cpp/src/keyczar/keyczar.cc:399-427 | A text is parsed exactly when it has nine bytes and the length after the header ends in the text and below 2^31; and which bytes the three parts then are. |
| Packing.NegativeLengthIsParsed | cpp/src/keyczar/keyczar.cc:399-427 | A text with the length -1 that is parsed, and is no frame of its parts. |
| Integers.BigIntToBytes | python/src/keyczar/util.py:275-282 | The bytes have the value of the number exactly when it is not negative. |
| Integers.DigitsHaveValue | python/src/keyczar/util.py:289-291 | Summing bytes by weight inverts the conversion to bytes. |
| Integers.ValueHasStrippedDigits | python/src/keyczar/util.py:275-291 | Converting a byte string to its value and back strips exactly its leading zeros. |
| Integers.TrimDependsOnValue | python/src/keyczar/util.py:310-316 | Two byte strings trim to the same bytes exactly when they have the same value, so zero padding never changes a key's identifier. |
| Integers.BinToBytesInverts | python/src/keyczar/util.py:252-273 | Converting bytes to bits and back gives the bytes. |
| Integers.BytesToBinInverts | python/src/keyczar/util.py:252-273 | Converting bits to bytes and back gives the bits, padded to whole bytes. |
| Integers.BytesAreBits | python/src/keyczar/util.py:252-273 | Every byte is written as its eight binary digits, the most significant first. |
| PyKeyczar.GenericKeyczar.Promote | python/src/keyczar/keyczar.py:196-217 | Changes the statuses of version objects in place as the model says. |
| PyKeyczar.GenericKeyczar.Demote | python/src/keyczar/keyczar.py:219-238 | The same for demotion; without a primary version afterwards if it was the primary one. |
| PyKeyczar.GenericKeyczar.Revoke | python/src/keyczar/keyczar.py:240-253 | Takes an inactive version out of the metadata and leaves its key in place. |
| PyKeyczar.GenericKeyczar.MaxVersionNumber | python/src/keyczar/keyczar.py:170-173 | The loop finds the greatest number among the versions with keys. |
| PyKeyczar.GenericKeyczar.AddVersion | python/src/keyczar/keyczar.py:147-194 | The new state and error are those of the model, for every stream of generated keys. |
| PyKeyczar.ReadMetadata | python/src/keyczar/keydata.py:101-117 | Makes a version object for every version, all before the first key is read. |
| PyKeyczar.GenericKeyczar.TakeIn | python/src/keyczar/keyczar.py:59-68 | One turn of the loading loop: a second primary version and a failed read are refused; otherwise the version's key is indexed under the version object and its hash. |
| PyKeyczar.Load | python/src/keyczar/keyczar.py:45-68 | For every class of keyset: an unacceptable purpose and a plain reader for encrypted keys are refused first; loading then visits the listed versions in a given order and ends in the state, or with the error, that the model gives. |
| PyKeyczarModel.StepKeepsInv | python/src/keyczar/keyczar.py:147-253 | An operation keeps the invariant (listed versions have keys, the noted primary is the only listed one) exactly when it is not a generation of a primary key that fails after the former primary was retired. |
| PyKeyczarModel.PromoteClimbs | python/src/keyczar/keyczar.py:196-217 | Promotion succeeds exactly for a listed version that is not primary and takes it one rung up; the others keep their status, but that the former primary becomes ACTIVE exactly when its place is taken; and which error is reported otherwise. |
| PyKeyczarModel.DemoteDescends | python/src/keyczar/keyczar.py:219-238 | The mirror image for demotion, without a primary version afterwards if it was the primary one. |
| PyKeyczarModel.RevokeUnlists | python/src/keyczar/keyczar.py:240-253 | Revoking succeeds exactly for a listed inactive version, and only unlists it. |
| PyKeyczarModel.AddVersionCases | python/src/keyczar/keyczar.py:147-194 | When adding fails and with which error, and that no other version changes, but that the former primary is retired before a primary key is generated. |
| PyKeyczarModel.FirstNewIsFirst | python/src/keyczar/keyczar.py:178-186 | The key that is used is the first one generated whose hash is new. |
| PyKeyczarModel.AcceptableIsPermitted | python/src/keyczar/keyczar.py:318-320 | A purpose is acceptable for a class exactly when it permits everything that the class offers. |
| PyKeyczarModel.LoadReports | python/src/keyczar/keyczar.py:45-68 | Why a keyset is not loaded: its purpose, encrypted keys without a decrypting reader, or, of the first version in the order for which either holds, that it is a second primary version or that its key cannot be read. |
| PyKeyczarModel.RunKeepsInv | python/src/keyczar/keyczar.py:147-253 | Over any run without such a failure the invariant holds. |
| PyKeyczarModel.GenerationFailsHalfway | python/src/keyczar/keyczar.py:178-192 | From a loaded keyset, a primary generation that fails with the former primary version retired and a noted one that was never added. |
| PyKeyczarModel.RunKeepsHashes | python/src/keyczar/keyczar.py:130-132 | Whatever is done, a key is found under the same hash as before. |
| PyKeyczarModel.RunKeepsHashesAgree | python/src/keyczar/keyczar.py:187-194 | Every key, generated during the run or before, is found under its hash after any run, if it was so before. |
| PyKeyczarModel.OldCiphertextsDecrypt | python/src/keyczar/keyczar.py:513-566 | A message encrypted with a key that the keyset has at any time of a session, from the start or generated since, decrypts to its plaintext after any further operations, at once and as a stream, even when the version was revoked meanwhile. |
| PyKeyczarModel.LoadedIsConsistent | python/src/keyczar/keyczar.py:45-68 | A keyset is loaded exactly when it is not refused, at most one version is primary and every version has a key; it is then consistent in whatever order its versions were visited, and every key is found under its hash exactly when no two different keys have the same one. |
| PyKeyczarModel.AddedVersionIs | python/src/keyczar/keyczar.py:147-194 | When a key can be generated, exactly one version is added, listed and loaded with its status, under a number that no version has or had, and no key is lost. |
| PyKeyczarModel.NumbersAreNew | python/src/keyczar/keyczar.py:170-176 | Over any run within a session the assigned numbers strictly increase, and all are above every number that a version has or had. |
| PyKeyczarModel.NumberAfterReload | python/src/keyczar/keyczar.py:280-299 | A keyset that is written and loaded again has the listed versions with their keys and the same primary version; its next number is the same as before exactly when the version with the highest number was not revoked, and lower otherwise. |
| PyKeyczarModel.NumberIsAssignedAgain | python/src/keyczar/keyczar.py:170-176 | A run in which a number is assigned again, to another key, after the keyset was written and loaded. |
| FilePaths.FilePath.StripTrailingSeparatorsInternal | cpp/src/keyczar/base/file_path.cc:258-278 | The backwards loop strips trailing separators in place, keeping one or two leading ones as POSIX asks. |
| FilePaths.FilePath.DirName | cpp/src/keyczar/base/file_path.cc:74-108 | Computes the parent by resizing in place. |
| FilePaths.FilePath.BaseName | cpp/src/keyczar/base/file_path.cc:110-131 | Computes the last component by erasing in place. |
| FilePaths.FilePath.Extension | cpp/src/keyczar/base/file_path.cc:133-145 | The extension of the last component. |
| FilePaths.FilePath.RemoveExtension | cpp/src/keyczar/base/file_path.cc:147-157 | The path before the last dot if there is an extension. |
| FilePaths.OnlyRootsAreFixed | cpp/src/keyczar/base/file_path.cc:74-108 | A path is its own parent exactly when it is ".", "/" or "//". |
| FilePaths.StrippedMeans | cpp/src/keyczar/base/file_path.cc:258-278 | Stripping takes separators from the end and nothing else; of separators alone one is left, or both of two. |
| FilePaths.BaseIsLastComponent | cpp/src/keyczar/base/file_path.cc:110-131 | The last component holds no separator and is not empty, and the stripped path is what stands before it, up to a separator, followed by it; separators alone are their own. |
| FilePaths.ParentMeans | cpp/src/keyczar/base/file_path.cc:74-108 | The parent is what stands before the last component without the separators at its end, the current directory if there is nothing, and one or two separators if there is nothing else. |
| FilePaths.ExtensionMeans | cpp/src/keyczar/base/file_path.cc:133-145 | The extension is the end of the last component from its last dot, and the components . and .. have none. |
| FilePaths.ParentIsShorter | cpp/src/keyczar/base/file_path.cc:74-108 | Every other path's parent is shorter or one of those three. |
| FilePaths.SubPaths | cpp/src/keyczar/base/file_util_posix.cc:140-150 | The loop over parent directories terminates from every path and collects exactly its ancestors, up to one of the three. |
| FilePaths.ExtensionSplits | cpp/src/keyczar/base/file_path.cc:133-157 | Whenever there is an extension, the path without it followed by it is the path without trailing separators. |
| FilePaths.NothingRemoved | cpp/src/keyczar/base/file_path.cc:147-157 | Removing the extension changes a path exactly when it has one. |

## Left out

- AES, SHA-1, HMAC, RSA and DSA arithmetic, ASN.1, PEM, and the OpenSSL and M2Crypto adaptors: foreign code, abstract here.
- Texts of error messages and the positions in them: errors are values of a datatype.
- Base64.Decode: characters that are not in the alphabet are an error here, while the Python decoder skips some of them.
- JSON numbers with fractions or exponents as values, and binary values: the scanner's acceptance is modelled, the writer emits neither.
- JsonReader.Reader.DecodeNumber: integers saturate at 32 bits, as `strtol` on such text does; the C library itself is not part of this model.
- The value classes of `values.cc` beyond setting and looking up in dictionaries: a dictionary is a sorted list of entries.
- Keysets.KeysetMetadata.CreateFromValue: a negative version number and a counter that is not positive stop the program, and are failures here.
- Metadata.FromValue: a negative version number and a counter that is not positive, on which the program stops, are failures here.
- The version counter and version numbers are unbounded: overflow of the 32-bit counter is not modelled.
- Keysets.Keyset.GenerateKey: the release build; in a debug build the unreachable removal of a version may run.
- Keysets.Keyset.RevokeKey: observers are a log of what they are told; an observer that calls back into the keyset is not modelled. ObserverLists covers changes of the list during a notification.
- Keyset's PublicKeyExport and ExportPrivateKey: the keys that are written; the metadata of a public export is in KeysetReload.ExportedMetadata. ImportPrivateKey is GenerateKey with a single candidate.
- The COMPAT_KEYCZAR_06B build, but for the counter that it leaves out of every form.
- EncryptingStream.RunStream: its output is a plain one; through the Base64 writer, runs with one flush are in EncryptStreamToText.
- PyKeyczar.Load: the order in which Python goes through its dictionary of versions is a parameter, and metadata is a map: the JSON text it is read from, and a repeated number in it, are outside.
- PyKeyczar.GenericKeyczar.AddVersion: whether a key size is valid is a parameter.
- Adding an observer twice, which a debug build of the observer list refuses.
- Unpacking.UnpackMultipleByteArrays: on a text on which the original loops for ever there is no result to state; Unpacking.EndsSoonOrNever says which texts these are.
- Packing.PrefixInputIsInjective: fields of 2^32 bytes or more are excluded, because their length wraps around; Packing.LongFieldCollides shows that it is then false.
- Packing.SafeStringEquals: bytes are not sign-extended before the exclusive or, which does not change when it is zero.
- Oaep.Encode: the number of bytes of the modulus is a parameter; its computation with floating-point logarithms is not part of this model.
- Session keys, signing and verifying by keys, timeouts and the remaining classes of `keyczar.py` and `keyczar.cc`: calls and concatenation around what is modelled.
- Reading and writing files, the command line tools, interoperability scripts and examples.
- Windows drive letters and separators in file paths, and the other operations of `FilePath`.
- Reference counting and scoped pointers: Dafny objects.
