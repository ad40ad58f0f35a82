# Cryptalk client utilities in Dafny

This project models four pieces of the Cryptalk web client and proves what
they promise:

- **Local search and highlight** (`src/utils/searchUtils.ts`).
  - `searchText` and `getSearchIndices` do case-insensitive substring search.
    `getSearchIndices` keeps its `while` loop over `indexOf`.
  - `escapeHtml` and `escapeRegex` are the two escapes.
  - `highlightText` splits the text with a capturing, case-insensitive regular
    expression built from the escaped query. It wraps every matching part in a
    fixed `<mark>` tag and HTML-escapes every part.
- **The string encryption service** (`src/utils/encryption.ts`).
  - `toBase64` and `fromBase64` are the byte ↔ binary-string loops around
    `btoa`/`atob`.
  - `encryptString` and `decryptString` are the envelope around AES-GCM,
    using a 12-byte IV.
  - `sha256Hex` renders a digest in hex.
- **File encryption** (`src/utils/fileEncryption.ts`). `encryptFile` has its
  own inline encoding loops. `decryptFile` uses the
  `Uint8Array.from(atob(…), c => c.charCodeAt(0))` decoding.
- **The registration form's submit handler** (`src/components/Auth/Register.tsx`).
  - The form state is a class whose fields `handleSubmit` updates in place.
  - The handler's state updates, its call to `register` and its navigation are
    recorded in order in an effects trace.

Modules:

- `Wrappers`: Option, Result and the byte type.
- `Base64`: `btoa`, and `atob` as the HTML standard's forgiving-base64 decode.
  Both follow section 4 of RFC 4648.
- `Hex`: `toString(16)`, `padStart` and the digest rendering.
- `Encryption`: encryption.ts.
- `FileEncryption`: fileEncryption.ts.
- `SearchUtils`: searchUtils.ts.
- `Register`: the submit handler.

The browser's cryptography enters as the function-valued fields of a
`WebCrypto` value: AES-GCM encrypt/decrypt, the SHA-256 digest and the UTF-8
TextEncoder/TextDecoder. `crypto.getRandomValues` enters as a random-source
parameter. Neither is interpreted: `encrypt` and `decrypt` may resolve or
reject with InvalidAccessError or OperationError, and the model states what the
code does around them, passing a rejection on as the service's own.

The highlight is specified independently of the split algorithm:

- A *greedy tiling* of the text alternates gaps and matches. Each match is the
  first case-insensitive occurrence at or after the end of the previous match.
- *Marked* renders a tiling with escaped gaps and with escaped matches wrapped
  in the mark tags.
- *StripTags* removes every `<…>` run. *UnescapeHtml* reads the five entities
  back.

Every non-blank path of `highlightText` passes all text through `escapeHtml`
(`searchUtils.ts:11-17`). The blank-query path (`searchUtils.ts:5`) returns the
text unescaped. The model follows the code; see Findings.

## Model

| member | source | states |
|---|---|---|
| Base64.AlphabetValue | src/utils/encryption.ts:14 | atob reads a character of the RFC 4648 alphabet as the one value whose table entry it is; no value maps to any other character |
| Base64.AlphabetValueOfChar | src/utils/encryption.ts:14 | every alphabet character btoa writes reads back as the value it encodes |
| Base64.RemoveAsciiWhitespace | src/utils/encryption.ts:14 | atob's first step leaves no ASCII whitespace and never lengthens the input |
| Base64.RemoveAsciiWhitespaceKeeps | src/utils/encryption.ts:14 | every character that is not ASCII whitespace is kept, as often as it occurs in the input |
| Base64.RemoveAsciiWhitespaceConcat | src/utils/encryption.ts:14 | the removal works character by character, so the kept characters stay in their order |
| Base64.Values | src/utils/encryption.ts:14 | the decoded values have one entry per character, entry i being the value whose table character is character i; decoding fails exactly when some character is outside the alphabet |
| Base64.Latin1 | src/utils/encryption.ts:9 | String.fromCharCode of bytes gives a binary string (every code below 256) |
| Base64.Atob | src/utils/encryption.ts:14 | whatever atob returns is a binary string |
| Base64.CharCodesLatin1 | src/utils/encryption.ts:16 | charCodeAt of the string built by fromCharCode gives the bytes back |
| Base64.Latin1CharCodes | src/utils/encryption.ts:9 | fromCharCode of the char codes of a binary string rebuilds the string |
| Base64.BtoaDefined | src/utils/encryption.ts:10 | btoa succeeds exactly on binary strings, so it never throws on the loops' output |
| Base64.EncodeAlphabet | src/utils/encryption.ts:10 | btoa's output holds only alphabet characters and '=', and '=' only in the last two positions |
| Base64.SextetsLength | src/utils/encryption.ts:10 | three bytes give four 6-bit groups; a final one or two bytes give two or three |
| Base64.EncodeLength | src/utils/encryption.ts:10 | the encoding of n bytes has length 4 * ceil(n / 3), a multiple of four |
| Base64.EncodeKeptByWhitespaceRemoval | src/utils/encryption.ts:14 | atob's whitespace removal leaves btoa's output untouched |
| Base64.StripPaddingOfEncode | src/utils/encryption.ts:14 | atob's padding removal takes off exactly the '=' that btoa appended |
| Base64.BytesOfSextets | src/utils/encryption.ts:6-18 | decoding the 6-bit groups of any byte sequence gives that sequence back |
| Base64.GroupRoundTrip | src/utils/encryption.ts:6-18 | the four 6-bit groups of three bytes reassemble into those three bytes |
| Base64.ValuesOfChars | src/utils/encryption.ts:14 | reading the characters of encoded groups gives the groups back |
| Base64.DecodeEncode | src/utils/encryption.ts:6-18 | atob's decode of btoa's encoding of any byte sequence gives that sequence |
| Base64.AtobBtoa | src/utils/encryption.ts:6-18 | atob(btoa(s)) == s for every binary string s |
| Base64.Encode | src/utils/encryption.ts:10 | btoa's encoding; specified by EncodeLength, EncodeAlphabet and DecodeEncode |
| Base64.Btoa | src/utils/encryption.ts:10 | btoa; specified by BtoaDefined and AtobBtoa |
| Base64.StripPadding | src/utils/encryption.ts:14 | atob's removal of one or two trailing '='; specified by StripPaddingOfEncode |
| Base64.Decode | src/utils/encryption.ts:14 | atob's forgiving-base64 decode; specified by DecodeEncode, and its failure cases by DecodeFails |
| Base64.DecodeFails | src/utils/encryption.ts:14 | atob throws exactly when the input, without whitespace and padding, has length 1 mod 4 or holds a character outside the alphabet |
| Base64.DecodeLoneCharFails | src/utils/encryption.ts:14 | atob("A") throws on the length alone, though "A" is in the alphabet |
| Hex.DigitValue | src/utils/encryption.ts:61 | a lowercase hex digit reads back as the one nibble it is written for; nothing else reads as a digit |
| Hex.PadStart | src/utils/encryption.ts:61 | padStart gives length max(len, \|s\|): s at the end, the fill character before it |
| Hex.ToStringRadix16Value | src/utils/encryption.ts:61 | toString(16) writes hex digits that denote n, with no leading zero |
| Hex.ByteToHexDigits | src/utils/encryption.ts:61 | a byte renders as exactly two digits, the high nibble first, zero-padded |
| Hex.ByteToHexRendersNibbles | src/utils/encryption.ts:61 | the per-byte renderer of sha256Hex writes every byte as its two nibble digits |
| Hex.MapJoinShape | src/utils/encryption.ts:61 | joining two-digit renderings gives twice as many characters as bytes, all hex digits |
| Hex.EncodeShape | src/utils/encryption.ts:61 | the hex of a digest has twice its length in characters, all lowercase hex digits |
| Hex.DecodeMapJoin | src/utils/encryption.ts:61 | reading two digits per byte back from a two-digit rendering gives the bytes |
| Hex.DecodeEncode | src/utils/encryption.ts:61 | hex-decoding the rendering recovers the digest bytes |
| Hex.ToStringRadix16 | src/utils/encryption.ts:61 | b.toString(16); specified by ToStringRadix16Value |
| Hex.ByteToHex | src/utils/encryption.ts:61 | the map callback; specified by ByteToHexDigits |
| Hex.MapJoin | src/utils/encryption.ts:61 | map then join(''); specified by MapJoinShape and DecodeMapJoin |
| Hex.Encode | src/utils/encryption.ts:61 | the digest rendering; specified by EncodeShape and DecodeEncode |
| Encryption.RandomIv | src/utils/encryption.ts:44 | the IV is 12 bytes |
| Encryption.ToBase64 | src/utils/encryption.ts:6-11 | the loop builds the binary string whose char code i is byte i, and the result is the Base64 encoding of the bytes |
| Encryption.FromBase64 | src/utils/encryption.ts:13-18 | the loop writes charCodeAt(i) into byte i, so the result is the Base64 decoding; fails with InvalidCharacterError exactly when atob rejects |
| Encryption.Seal | src/utils/encryption.ts:42-48 | what encryptString resolves or rejects with; specified by SealIv, OpenSeal and OpenSealRoundTrip |
| Encryption.EncryptString | src/utils/encryption.ts:42-48 | the result is Seal: a rejection exactly when encrypt rejects, otherwise the Base64 ciphertext under a fresh 12-byte IV, whose ivB64 has 16 characters and no '=' |
| Encryption.Open | src/utils/encryption.ts:51-56 | InvalidCharacterError exactly when either field is not Base64; otherwise a success exactly when decrypt of the decoded IV and ciphertext resolves, the text being the UTF-8 decoding of its result, and decrypt's own rejection when it rejects |
| Encryption.DecryptString | src/utils/encryption.ts:51-56 | the method computes Open: IV, then ciphertext, through fromBase64, then decrypt and UTF-8 decode |
| Encryption.Sha256Hex | src/utils/encryption.ts:59-62 | the output has twice the digest length, only lowercase hex digits, and hex-decodes to the digest |
| Encryption.TwelveBytesEncoding | src/utils/encryption.ts:44-47 | twelve bytes encode to sixteen characters without '=' and decode back to themselves |
| Encryption.SealIv | src/utils/encryption.ts:44-52 | when encryptString resolves, its ivB64 is 16 characters, no '=', and decryptString decodes it to the 12 IV bytes |
| Encryption.OpenSeal | src/utils/encryption.ts:46-55 | encryptString resolves exactly when encrypt does; decryptString on its output calls decrypt with exactly the key, IV and ciphertext encryption used and passes on decrypt's result or rejection |
| Encryption.OpenSealRoundTrip | src/utils/encryption.ts:42-56 | when encrypt resolves, decrypt inverts it and UTF-8 decoding inverts encoding, decryptString recovers the plaintext |
| FileEncryption.SealFile | src/utils/fileEncryption.ts:2-25 | what encryptFile resolves or rejects with; specified by DecryptSealedFile and FileRoundTrip |
| FileEncryption.EncryptFile | src/utils/fileEncryption.ts:2-25 | a rejection exactly when encrypt rejects; otherwise both loops build binary strings whose char code i is byte i, the result equals toBase64 of the ciphertext and of the IV, and ivB64 has 16 characters |
| FileEncryption.AtobBytes | src/utils/fileEncryption.ts:30-31 | the charCodeAt mapping of atob gives the Base64 decoding; it fails with InvalidCharacterError exactly when the input is not Base64 |
| FileEncryption.DecryptFile | src/utils/fileEncryption.ts:28-41 | InvalidCharacterError exactly when either field is not Base64; otherwise exactly what decrypt resolves or rejects with for the decoded IV and ciphertext |
| FileEncryption.AtobBytesOfEncode | src/utils/fileEncryption.ts:30-31 | the atob mapping recovers exactly the bytes encryptFile encoded |
| FileEncryption.DecryptSealedFile | src/utils/fileEncryption.ts:2-41 | encryptFile resolves exactly when encrypt does; decryptFile on its output calls decrypt with exactly the key, IV and ciphertext encryption used and passes on its result |
| FileEncryption.FileRoundTrip | src/utils/fileEncryption.ts:2-41 | when encrypt resolves and decrypt inverts it, decryptFile returns the original file |
| SearchUtils.TrimStart | src/utils/searchUtils.ts:5 | trim drops exactly the leading whitespace: a suffix that is empty or starts with a non-whitespace character |
| SearchUtils.TrimEnd | src/utils/searchUtils.ts:5 | trim drops exactly the trailing whitespace: a prefix that is empty or ends with a non-whitespace character |
| SearchUtils.BlankIffAllWhitespace | src/utils/searchUtils.ts:5 | a query is blank exactly when every character is whitespace |
| SearchUtils.Trim | src/utils/searchUtils.ts:5 | String.prototype.trim; specified by TrimStart and TrimEnd |
| SearchUtils.IsBlank | src/utils/searchUtils.ts:5 | `!query.trim()`; specified by BlankIffAllWhitespace |
| SearchUtils.LowerStr | src/utils/searchUtils.ts:56-57 | lower-casing keeps the length |
| SearchUtils.FindFrom | src/utils/searchUtils.ts:58-62 | indexOf from i returns the first occurrence at or after i, or -1 exactly when there is none |
| SearchUtils.IndexOf | src/utils/searchUtils.ts:58-62 | indexOf with the start position clamped to the string; specified by FindFrom |
| SearchUtils.SearchText | src/utils/searchUtils.ts:44-47 | true exactly when the query is blank or lower(query) occurs in lower(text) |
| SearchUtils.FoundStep | src/utils/searchUtils.ts:60-63 | recording the hit and searching again from index + 1 keeps the list exactly the occurrences before the next hit |
| SearchUtils.FoundAll | src/utils/searchUtils.ts:60 | when the loop ends the list holds every occurrence |
| SearchUtils.GetSearchIndices | src/utils/searchUtils.ts:52-66 | [] for a blank query; otherwise exactly the positions where lower(query) occurs in lower(text), overlapping ones included, strictly increasing, non-empty exactly when searchText holds |
| SearchUtils.IndicesAgreeWithSearch | src/utils/searchUtils.ts:44-66 | for a non-blank query the complete position list is non-empty exactly when searchText is true |
| SearchUtils.EscapeHtmlChar | src/utils/searchUtils.ts:24-30 | the five-entry escape table; specified by UnescapeHtmlChar and EscapeHtmlPlain |
| SearchUtils.EscapeHtml | src/utils/searchUtils.ts:23-32 | the output contains no raw <, >, " or ' |
| SearchUtils.EscapeHtmlPlain | src/utils/searchUtils.ts:23-32 | characters outside & < > " ' pass unchanged |
| SearchUtils.EscapeHtmlConcat | src/utils/searchUtils.ts:31 | the replacement is global and character by character: escaping distributes over concatenation |
| SearchUtils.UnescapeHtmlChar | src/utils/searchUtils.ts:24-30 | each entry of the table reads back as the character it replaces |
| SearchUtils.UnescapeEscapeHtml | src/utils/searchUtils.ts:23-32 | reading escapeHtml's output as HTML gives back the original text |
| SearchUtils.EscapeRegex | src/utils/searchUtils.ts:37-39 | escapeRegex; specified by LiteralOfEscapeRegex |
| SearchUtils.LiteralOfEscapeRegex | src/utils/searchUtils.ts:37-39 | the escaped query, read as a pattern, matches the query literally |
| SearchUtils.PatternCapturesQuery | src/utils/searchUtils.ts:7-8 | the compiled pattern is one capturing group that matches the query literally |
| SearchUtils.SplitFrom | src/utils/searchUtils.ts:9 | the scan of split with a capturing pattern; specified by SplitFromGreedy |
| SearchUtils.Split | src/utils/searchUtils.ts:9 | text.split(regex); specified by SplitFromGreedy, GreedyUnique and TilingConcat |
| SearchUtils.SplitFromGreedy | src/utils/searchUtils.ts:9 | split with the capturing pattern yields the greedy tiling: gaps free of occurrences, each match the first occurrence after the previous one |
| SearchUtils.TilingUnique | src/utils/searchUtils.ts:9 | a tiling is determined by its match positions |
| SearchUtils.GreedyUnique | src/utils/searchUtils.ts:9 | there is only one greedy tiling of a text |
| SearchUtils.TilingConcat | src/utils/searchUtils.ts:9 | the parts of the split, joined, give the text back |
| SearchUtils.GapNotMatch | src/utils/searchUtils.ts:13 | a gap never equals the query case-insensitively, so the part test leaves it unmarked |
| SearchUtils.MatchIsQuery | src/utils/searchUtils.ts:13 | a matched part equals the query case-insensitively, so the part test marks it |
| SearchUtils.GreedyAlternating | src/utils/searchUtils.ts:9-13 | in the split, the gaps fail the part test and the matches pass it |
| SearchUtils.RenderPart | src/utils/searchUtils.ts:12-16 | the map callback; specified by GapNotMatch, MatchIsQuery and RenderAlternating |
| SearchUtils.RenderParts | src/utils/searchUtils.ts:11-17 | map then join(''); specified by RenderAlternating |
| SearchUtils.RenderAlternating | src/utils/searchUtils.ts:11-17 | mapping and joining such parts gives the marked rendering |
| SearchUtils.HighlightText | src/utils/searchUtils.ts:4-18 | highlightText as written; specified by HighlightMarksOccurrences, HighlightRoundTrip and BlankQueryTextNotEscaped |
| SearchUtils.HighlightMarksOccurrences | src/utils/searchUtils.ts:4-18 | for a non-blank query, highlightText is the marked rendering of the greedy tiling: every left-to-right, non-overlapping case-insensitive occurrence is wrapped in the mark tags and nothing else is |
| SearchUtils.MarkTags | src/utils/searchUtils.ts:14 | the opening and closing mark tags are whole tags that tag stripping removes |
| SearchUtils.StripTagsMarked | src/utils/searchUtils.ts:11-17 | removing the tags from a marked rendering leaves the escaped text of all parts |
| SearchUtils.HighlightRoundTrip | src/utils/searchUtils.ts:4-18 | for a non-blank query, stripping the mark tags and unescaping the entities gives the original text |
| SearchUtils.BlankQueryTextNotEscaped | src/utils/searchUtils.ts:5 | a blank query returns the text verbatim: for "<i>" the result is "<i>", which reads as markup rather than as the text |
| SearchUtils.HighlightEscapedRoundTrip | src/utils/searchUtils.ts:4-18 | with the blank path escaping too, stripping tags and unescaping gives the text back for every query |
| Register.Validate | src/components/Auth/Register.tsx:19-26 | submission may proceed exactly when the confirmation matches and the password has at least 6 characters; a mismatch gives 'Passwords do not match', and a matching password under 6 characters gives 'Password must be at least 6 characters' |
| Register.SubmitEffects | src/components/Auth/Register.tsx:15-37 | the effects of one submission; specified by SubmitClearsErrorFirst, MismatchReportedFirst, RegisterCalledIffValid, NavigatesIffRegistered and SubmitFinalView |
| Register.FailureMessage | src/components/Auth/Register.tsx:33 | the server's message when present and non-empty, otherwise 'Registration failed'; never empty |
| Register.RegisterForm.constructor | src/components/Auth/Register.tsx:6-11 | empty inputs, no error, not loading |
| Register.RegisterForm.UpdateError | src/components/Auth/Register.tsx:10 | setError replaces the error and records the update |
| Register.RegisterForm.UpdateLoading | src/components/Auth/Register.tsx:11 | setLoading replaces the flag and records the update |
| Register.RegisterForm.HandleSubmit | src/components/Auth/Register.tsx:15-37 | appends this submission's effects to the trace, and the new error and loading are those effects applied in order to the old ones |
| Register.MismatchReportedFirst | src/components/Auth/Register.tsx:19-26 | a mismatched confirmation reports 'Passwords do not match' even when the password is also short |
| Register.SubmitClearsErrorFirst | src/components/Auth/Register.tsx:17 | every submission first clears the error |
| Register.RegisterCalledIffValid | src/components/Auth/Register.tsx:19-30 | register is called exactly when both checks pass, with the entered name, email and password, right after loading is set |
| Register.NavigatesIffRegistered | src/components/Auth/Register.tsx:30-31 | the router goes to /dashboard exactly when both checks pass and register resolves |
| Register.SubmitFinalView | src/components/Auth/Register.tsx:15-37 | after a failed check the error is that check's message and loading is unchanged; after a call to register loading is false and the error is empty or the failure message |

## Left out

- The cryptographic primitives are uninterpreted function fields: AES-GCM, SHA-256, the UTF-8 codec and getRandomValues. Their outputs are arbitrary, and the round-trip lemmas require that decrypt inverts encrypt.
- generateAESKey, exportKeyBase64 and importAesKeyBase64 (src/utils/encryption.ts:22-39) are key-management calls into Web Crypto. They are not part of this model.
- fileToArrayBuffer and arrayBufferToBlob (src/utils/fileEncryption.ts:44-62) are FileReader and Blob I/O. They are not part of this model.
- Promises and `async` ordering: every function is one sequential step, and a rejected promise is a Failure value.
- The rejections of crypto.subtle.encrypt and decrypt are parameters of the model: which keys, IVs or ciphertexts they reject is not modelled, only that InvalidAccessError or OperationError passes through.
- Encryption.OpenSealRoundTrip: the UTF-8 codec is opaque, and the lemma requires that decoding inverts encoding for the plaintext. A default TextDecoder strips a leading U+FEFF byte-order mark, so a plaintext that begins with U+FEFF comes back without it; the model does not state that case.
- SearchUtils.LowerStr: only ASCII letters are lower-cased. Full Unicode case mapping, which can change string lengths and differs from the regular expression's `i` flag on some characters, is not modelled.
- SearchUtils.GetSearchIndices: positions and lengths count characters, where JavaScript counts UTF-16 code units.
- Register.Validate: `password.length` counts characters, where JavaScript counts UTF-16 code units.
- The regular-expression engine is modelled only for the patterns highlightText builds: a capturing group of literal atoms, matched case-insensitively and globally by split. Other patterns make LiteralOf return None.
- split's optional limit argument is not used by the source and is not modelled.
- React rendering, state batching and the rest of the Register component, the auth context's network call (its outcome is a parameter), and SearchBar's UI handling.

## Findings

| source | as written | input that shows it | evidently intended | confidence | as-written member | corrected member |
|---|---|---|---|---|---|---|
| src/utils/searchUtils.ts:5 | a blank query returns the text without escapeHtml, unlike every other path | text "<i>", query "" | escape the text on the blank path too, so markup in the text is never rendered | medium, not executed | SearchUtils.BlankQueryTextNotEscaped | SearchUtils.HighlightEscapedRoundTrip |
