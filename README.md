# pastebin: short-link codec and upload table, in Dafny

A model of the core of a small Flask pastebin (`app.py`). A client uploads a
file once and receives a short link `host + token`. The token is the base-62
numeral of the row id that the upload received in the SQLite table `file`.
Fetching `/<token>` decodes the token back to an id, looks the row up, and
sends the stored blob under its original (sanitised) filename. Uploads are
deduplicated by the md5 of their content. Dedup works at record granularity:
content that is already stored gets the reply "file exists", and no second
row is created, even when the filename or expiry differ.

The project has three modules:

- `Wrappers` (`wrappers.dfy`): the `Option` type.
- `Base62` (`base62.dfy`): `toBase62` and `toBase10`. `Numeral(n, b)` and
  `ValueOf(s, b)` are the specification functions. `ToBase62` and
  `ToBase10` are the source's loops, proved against those functions. The
  lemmas prove the round trip in both directions: every id decodes back
  from its token, and every canonical numeral is the token of its own value.
  They also prove the edge cases of the symbol lookup (`str.find` returns -1).
- `FileStore` (`file_store.dfy`): the `file` table as rows plus the id that
  AUTOINCREMENT hands out next. `FileExists` and `SelectById` are the two
  SELECTs. `Insert` is the INSERT. `UploadStep` and `Redirect` are the
  decision flows of `upload_file` and `redirect_short_fname`. The class
  `FileTable` holds the table as mutable state (`records: seq<Record>`,
  `nextId: nat`), and its methods are proved against those functions. The
  lemmas cover:
  - the AUTOINCREMENT invariant;
  - the dedup policy;
  - uniqueness of content hashes across rows;
  - the link round trip;
  - stability of issued links;
  - tokens that name no row.

Four behaviours of the code that the model keeps as written:

- `toBase10` does not reject a token that contains a character outside
  `0-9a-zA-Z`. That character counts as digit -1, so "-" decodes to -1 and
  retrieves nothing. "a-" decodes to 619, the same id as "9Z", and so
  retrieves row 619, if there is one (`Base62.ForeignSymbolExamples`,
  `FileStore.ForeignTokensAtRetrieval`).
- Retrieval sends `"uploads/" + md5sum`. Uploads are stored under the
  configured `UPLOAD_FOLDER`. The model keeps the literal `uploads/` path.
- Expiry is stored but never checked. The model carries `expire` through
  unchanged.
- The id query binds the decoded token outside the `try` (app.py:170-173).
  A token that decodes outside SQLite's signed 64-bit INTEGER range, such as
  "b0000000000" (11 * 62^10), makes the query raise. The model answers
  `QueryOverflow` for it (`FileStore.OverflowingToken`).

## Model

| member | source | states |
|---|---|---|
| `Base62.AlphabetIsDigitChars` | app.py:63 | the alphabet `digits + ascii_lowercase + ascii_uppercase` has 62 symbols, and symbol `d` is '0'+d, 'a'+(d-10) or 'A'+(d-36) |
| `Base62.Find` | app.py:81 | `str.find` for one character gives the first index of the character, and -1 exactly when the character does not occur |
| `Base62.FindInAlphabet` | app.py:77-81 | `base.find(c)` is the digit value of `c`, and -1 for every character outside `0-9a-zA-Z` |
| `Base62.ZerosDecodeToZero` | app.py:77-82 | a token made only of '0' symbols decodes to 0 in every base |
| `Base62.TrailingZeros` | app.py:80-81 | appending `k` '0' symbols multiplies the decoded value by `b^k` |
| `Base62.Numeral` | app.py:58-71 | the token of `n` in base `b` is non-empty; every symbol is a digit below `b`; its first symbol is '0' exactly when `n == 0`; it is one symbol long exactly when `n < b` |
| `Base62.ToBase62` | app.py:58-71 | the division loop that prepends digits returns `Numeral(num, b)`; a base `b <= 0` or `b > 62` is rejected (the source returns the integer 0, here `None`) |
| `Base62.ToBase10` | app.py:74-82 | the left-to-right loop `res = b * res + base.find(c)` returns `ValueOf(token, b)`; the empty token gives 0 |
| `Base62.DecodeEncode` | app.py:58-82 | `toBase10(toBase62(n, b), b) == n` for every `n >= 0` and every base it accepts and terminates on |
| `Base62.EncodeDecode` | app.py:58-82 | every canonical numeral (non-empty, digits below `b`, no leading '0') is the token of its own value, which is `>= 0`: the encoding is a bijection onto canonical numerals |
| `Base62.ValueOf` | app.py:74-82 | the value `toBase10` computes, the positional sum with each symbol worth its alphabet index; a token made only of alphabet symbols decodes to a value `>= 0` for every base `b >= 0` |
| `Base62.LeadingZero` | app.py:80-81 | prefixing one '0' does not change the decoded value |
| `Base62.LeadingZeros` | app.py:80-81 | prefixing any run of '0' symbols does not change the decoded value |
| `Base62.ForeignSymbol` | app.py:81 | a symbol outside the alphabet is read as digit -1; decoding does not fail |
| `Base62.ForeignSymbolExamples` | app.py:81 | "-" decodes to -1, and "a-" decodes to 619, the value of "9Z" |
| `FileStore.FileExists` | app.py:95-101 | `file_exists` is true exactly when some row carries the given md5sum |
| `FileStore.SelectById` | app.py:172-179 | the lookup by id returns a row of the table with that id, and returns nothing exactly when no row has that id |
| `FileStore.Insert` | app.py:107-111 | the INSERT appends exactly one row and leaves the earlier rows unchanged; it keeps the AUTOINCREMENT invariant; the new id is larger than every existing id |
| `FileStore.Redirect` | app.py:168-186 | the query raises exactly when `toBase10(token)` does not fit a signed 64-bit INTEGER; otherwise retrieval sends a file exactly when that id is the id of a row, and then sends `uploads/<md5sum>` and the filename of the row with that id; else "link does not exist" |
| `FileStore.FileTable.constructor` | app.py:43-55 | a fresh `file` table is empty and hands out id 1 first |
| `FileStore.FileTable.ShortenFilename` | app.py:104-114 | inserts the row with the next id, advances the counter, keeps the table well-formed, and returns `host + toBase62(id)` |
| `FileStore.FileTable.UploadFile` | app.py:117-165 | updates the table and replies exactly as `UploadStep` does: the form for GET, "no file part", "no selected file", "file exists" for a known hash, else the new link; it keeps the table well-formed and keeps hashes unique |
| `FileStore.FileTable.RedirectShortFname` | app.py:168-186 | decodes the token with the `toBase10` loop, refuses an id outside the INTEGER range, and answers exactly as `Redirect` does |
| `FileStore.SelectFindsRow` | app.py:44-46 | in a well-formed table the id of each row finds exactly that row |
| `FileStore.UploadStep` | app.py:117-165 | the decision flow of `upload_file`: every upload keeps the table well-formed (the AUTOINCREMENT invariant); it leaves the table unchanged unless the reply is a link; a link means the hash was new and exactly one row `(next id, safe name, md5sum, expire)` was appended, with an id larger than all earlier ids, and the counter advanced by one |
| `FileStore.DuplicateHashRejected` | app.py:146-149 | a file part with a non-empty name gets "file exists" exactly when its md5sum is already in the table, and then the table is unchanged, whatever its filename or expiry |
| `FileStore.UploadReplyTexts` | app.py:117-165 | the body of each answer: "upload file" for GET, "no file part", "no selected file" for an empty name, "file exists" for a known hash, else `host + toBase62(next id)` |
| `FileStore.SameContentTwice` | app.py:146-163 | uploading the same content twice under any names and expiries adds one row for the first upload, and the second upload gets "file exists" with the table unchanged |
| `FileStore.UploadKeepsHashesUnique` | app.py:146-163 | no upload creates a second row with a hash that is already stored |
| `FileStore.UploadThenRetrieve` | app.py:104-186 | the link issued by an upload of an id SQLite can hand out is `host + token`, and retrieving `token` sends the row just inserted, under its stored filename |
| `FileStore.LinksAreStable` | app.py:104-111 | a token that retrieves a row retrieves the same thing after any later upload, because rows are never updated or deleted |
| `FileStore.DistinctUploadsDistinctTokens` | app.py:112 | two successful uploads in a row issue different tokens, and so different links |
| `FileStore.UnassignedTokenMisses` | app.py:170-179 | a token that decodes to an id below 1, or to an id not yet handed out, gives "link does not exist" when the id fits an INTEGER, and makes the query raise otherwise |
| `FileStore.OverflowingToken` | app.py:170-173 | "b0000000000" decodes to 11 * 62^10, above 2^63 - 1, so retrieving it raises |
| `FileStore.ForeignTokensAtRetrieval` | app.py:170-179 | "-" gives "link does not exist", and "a-" retrieves what "9Z" retrieves |

## Left out

- HTTP routing, request and form parsing, and `send_file` (app.py:117-129, 185-186). A request is a `Request` value, and a retrieval is a `Retrieval` value that names the path and the attachment name.
- Configuration from `secrets.json` and the environment (`get_secret`, app.py:23-40). The host prefix is a constructor parameter of `FileTable`.
- `calc_md5` (app.py:85-92) reads the file and calls MD5. The content hash is an input.
- Saving the temporary file, `os.rename` and `os.remove` (app.py:134-152). This is filesystem I/O, so the model has no blob store. As a consequence, it does not capture that the blob is renamed into place before the expiry is parsed: a missing or non-integer `expire` field raises after the rename and leaves a blob with no row.
- `secure_filename` (app.py:135) is a library call. Its result is the input `safeName`.
- The base64 encoding of the stored filename (app.py:111, 177). The filename is stored as text. This assumes base64 decoding undoes the encoding.
- The expiry computation from `datetime.now()`, `timedelta` and `int()` of the form field (app.py:154-161). `expire` is an integer input.
- The `db` module, the SQL text, and `table_check` catching "already exists" (app.py:13, 43-55). These are a foreign library. The table is modelled through AUTOINCREMENT's observable behaviour only: ids start at 1, strictly increase, and are never reused.
- SQLite's 64-bit id limit on inserts. `nextId` is an unbounded `nat`, so the model does not capture an insert failing once ids run out. `FileStore.UploadThenRetrieve` requires the new id to be at most 2^63 - 1, the largest id SQLite hands out.
- `Base62.ToBase62`: `floor(num / b)` is float division in the source and loses precision for ids of 2^53 and above. The model uses exact integer division.
- `Base62.ToBase62`: a negative `num` with an accepted base, or `b == 1` with `num > 0`, never terminates in the source. A negative `num` with a rejected base returns 0 there, but `num` is a `nat` here; the only caller passes `lastrowid`, which is at least 1.
- The exception path in `redirect_short_fname` where `fname` can be unbound (app.py:180-183).
- `if file:` (app.py:132) is always true once the filename is non-empty, so it has no branch in the model.
- Concurrent uploads of the same content. Each operation is modelled as one atomic step.
