/**
  The upload, dedup and lookup logic of app.py over the `file` table
  (id INTEGER PRIMARY KEY AUTOINCREMENT, filename, md5sum, expire).

  The table is a sequence of rows in insertion order together with the id
  AUTOINCREMENT hands out next. `UploadStep` and `Redirect` are the
  specifications of `upload_file` and `redirect_short_fname`; the class
  `FileTable` holds the table as mutable state and its methods are proved
  against them. The content hash, the sanitised filename, the expiry and the
  host prefix are inputs.
*/
module FileStore {
  import opened Wrappers
  import Base62

  /** A row of the `file` table. The filename is kept as text (the source stores its base64). */
  datatype Record = Record(id: int, filename: string, md5sum: string, expire: int)

  /** The rows in insertion order, and the id the next insert receives. */
  datatype Table = Table(records: seq<Record>, nextId: nat)

  /** What reaches upload_file's POST branch: no `file` part, or a file part with the
      client's filename, what secure_filename made of it, the md5 of its bytes and the
      expiry computed from the form. */
  datatype Upload =
    | NoFilePart
    | FilePart(clientName: string, safeName: string, md5sum: string, expire: int)

  datatype Request = Get | Post(upload: Upload)

  /** The plain-text answers of upload_file. */
  datatype UploadReply =
    | UploadForm
    | NoFilePartReply
    | NoSelectedFile
    | FileExistsReply
    | Link(url: string)
  {
    function Text(): string
    {
      match this
      case UploadForm => "upload file"
      case NoFilePartReply => "no file part"
      case NoSelectedFile => "no selected file"
      case FileExistsReply => "file exists"
      case Link(url) => url
    }
  }

  /** The answers of redirect_short_fname: a message, the stored blob sent as an
      attachment, or the exception the id query raises when the decoded id does not
      fit an SQLite INTEGER (Python's sqlite3 refuses to bind such an int). */
  datatype Retrieval =
    | LinkDoesNotExist
    | SendFile(path: string, attachmentName: string)
    | QueryOverflow

  /** The table a fresh database starts with: no rows, first id 1. */
  const EmptyTable: Table := Table([], 1)

  /** The symbols of the default base, 62. */
  const TokenBase := 62

  /** The range of an SQLite INTEGER: signed 64 bits. */
  const MinInteger: int := -0x8000_0000_0000_0000
  const MaxInteger: int := 0x7FFF_FFFF_FFFF_FFFF

  /** A value sqlite3 can bind as a query parameter. */
  predicate FitsInteger(v: int)
  {
    MinInteger <= v <= MaxInteger
  }

  /** AUTOINCREMENT: ids are positive, strictly increase in insertion order and stay below the next id. */
  predicate Wellformed(t: Table)
  {
    && t.nextId >= 1
    && (forall i :: 0 <= i < |t.records| ==> 1 <= t.records[i].id < t.nextId)
    && (forall i, j :: 0 <= i < j < |t.records| ==> t.records[i].id < t.records[j].id)
  }

  /** No two rows carry the same content hash. */
  predicate UniqueHashes(rs: seq<Record>)
  {
    forall i, j :: 0 <= i < j < |rs| ==> rs[i].md5sum != rs[j].md5sum
  }

  /** file_exists: some row carries this content hash. */
  function FileExists(rs: seq<Record>, md5sum: string): (b: bool)
    ensures b <==> exists i :: 0 <= i < |rs| && rs[i].md5sum == md5sum
  {
    if rs == [] then false
    else
      assert forall i :: 1 <= i < |rs| ==> rs[i] == rs[1..][i - 1];
      rs[0].md5sum == md5sum || FileExists(rs[1..], md5sum)
  }

  /** `SELECT filename, md5sum FROM file WHERE id = ?`, fetchone: the row with this id, if any. */
  function SelectById(rs: seq<Record>, id: int): (r: Option<Record>)
    ensures r.Some? ==> r.value.id == id && r.value in rs
    ensures r.None? <==> forall i :: 0 <= i < |rs| ==> rs[i].id != id
  {
    if rs == [] then None
    else if rs[0].id == id then Some(rs[0])
    else
      assert forall i :: 1 <= i < |rs| ==> rs[i] == rs[1..][i - 1];
      SelectById(rs[1..], id)
  }

  /** The INSERT of shorten_filename: one row with the next id, and the counter advances. */
  function Insert(t: Table, filename: string, md5sum: string, expire: int): (r: Table)
    ensures |r.records| == |t.records| + 1 && r.records[..|t.records|] == t.records
    ensures Wellformed(t) ==> Wellformed(r)
    ensures Wellformed(t) ==> forall i :: 0 <= i < |t.records| ==> t.records[i].id < r.records[|t.records|].id
  {
    Table(t.records + [Record(t.nextId, filename, md5sum, expire)], t.nextId + 1)
  }

  /** The link shorten_filename returns for id `id`. */
  function ShortLink(host: string, id: nat): string
  {
    host + Base62.Numeral(id, TokenBase)
  }

  /** The decision flow of upload_file: the new table and the reply. Every upload keeps
      the table well-formed and leaves it unchanged unless the reply is a link; a link
      means the hash was new and exactly one row with a fresh, larger id was appended. */
  function UploadStep(t: Table, host: string, req: Request): (r: (Table, UploadReply))
    ensures Wellformed(t) ==> Wellformed(r.0)
    ensures !r.1.Link? ==> r.0 == t
    ensures r.1.Link? ==>
      && req.Post? && req.upload.FilePart? && !FileExists(t.records, req.upload.md5sum)
      && r.0.records
           == t.records + [Record(t.nextId, req.upload.safeName, req.upload.md5sum, req.upload.expire)]
      && r.0.nextId == t.nextId + 1
      && (Wellformed(t) ==> forall i :: 0 <= i < |t.records| ==> t.records[i].id < r.0.records[|t.records|].id)
  {
    match req
    case Get => (t, UploadForm)
    case Post(NoFilePart) => (t, NoFilePartReply)
    case Post(FilePart(clientName, safeName, md5sum, expire)) =>
      if clientName == "" then (t, NoSelectedFile)
      else if FileExists(t.records, md5sum) then (t, FileExistsReply)
      else (Insert(t, safeName, md5sum, expire), Link(ShortLink(host, t.nextId)))
  }

  /** redirect_short_fname: decode the token, look the id up, send the blob under its stored name. */
  function Redirect(rs: seq<Record>, token: string): (r: Retrieval)
    ensures r == QueryOverflow <==> !FitsInteger(Base62.ValueOf(token, TokenBase))
    ensures r.SendFile? <==>
      FitsInteger(Base62.ValueOf(token, TokenBase))
      && exists i :: 0 <= i < |rs| && rs[i].id == Base62.ValueOf(token, TokenBase)
    ensures r.SendFile? ==>
      exists i :: 0 <= i < |rs| && rs[i].id == Base62.ValueOf(token, TokenBase)
        && r == SendFile("uploads/" + rs[i].md5sum, rs[i].filename)
  {
    var id := Base62.ValueOf(token, TokenBase);
    if !FitsInteger(id) then QueryOverflow
    else
      match SelectById(rs, id)
      case None => LinkDoesNotExist
      case Some(row) => SendFile("uploads/" + row.md5sum, row.filename)
  }

  /** The `file` table of one database, with its AUTOINCREMENT counter. */
  class FileTable {
    const host: string
    var records: seq<Record>
    var nextId: nat

    function State(): Table
      reads this
    {
      Table(records, nextId)
    }

    ghost predicate Valid()
      reads this
    {
      Wellformed(State())
    }

    /** table_check on a fresh database: the table exists and is empty. */
    constructor (host: string)
      ensures Valid() && this.host == host
      ensures State() == EmptyTable
    {
      this.host := host;
      records := [];
      nextId := 1;
    }

    /** shorten_filename (app.py:104-114): insert the row, return host + the id's token. */
    method ShortenFilename(filename: string, md5sum: string, expire: int) returns (link: string)
      requires Valid()
      modifies this
      ensures Valid()
      ensures State() == Insert(old(State()), filename, md5sum, expire)
      ensures link == ShortLink(host, old(nextId))
    {
      var id := nextId;
      records := records + [Record(id, filename, md5sum, expire)];
      nextId := nextId + 1;
      var token := Base62.ToBase62(id, TokenBase);
      link := host + token.value;
    }

    /** upload_file (app.py:117-165) once the file is hashed: dedup by hash, else insert. */
    method UploadFile(req: Request) returns (reply: UploadReply)
      requires Valid()
      modifies this
      ensures Valid()
      ensures (State(), reply) == UploadStep(old(State()), host, req)
      ensures UniqueHashes(old(records)) ==> UniqueHashes(records)
    {
      if req.Get? {
        return UploadForm;
      }
      match req.upload
      case NoFilePart =>
        return NoFilePartReply;
      case FilePart(clientName, safeName, md5sum, expire) =>
        if clientName == "" {
          return NoSelectedFile;
        }
        if FileExists(records, md5sum) {
          return FileExistsReply;
        }
        var link := ShortenFilename(safeName, md5sum, expire);
        if UniqueHashes(old(records)) {
          UploadKeepsHashesUnique(old(State()), host, req);
        }
        return Link(link);
    }

    /** redirect_short_fname (app.py:168-186), a read-only query. */
    method RedirectShortFname(token: string) returns (r: Retrieval)
      ensures r == Redirect(records, token)
    {
      var decoded := Base62.ToBase10(token, TokenBase);
      if !FitsInteger(decoded) {
        return QueryOverflow;
      }
      var row := SelectById(records, decoded);
      if row.None? {
        return LinkDoesNotExist;
      }
      r := SendFile("uploads/" + row.value.md5sum, row.value.filename);
    }
  }

  /** In a well-formed table each id names exactly one row. */
  lemma SelectFindsRow(t: Table, k: int)
    requires Wellformed(t) && 0 <= k < |t.records|
    ensures SelectById(t.records, t.records[k].id) == Some(t.records[k])
  {
    var rs := t.records;
    var r := SelectById(rs, rs[k].id);
    var j :| 0 <= j < |rs| && rs[j] == r.value;
  }

  /** Dedup at record granularity: a file part whose hash is already stored gets
      "file exists" and changes nothing, whatever its filename or expiry. */
  lemma DuplicateHashRejected(t: Table, host: string, req: Request)
    requires req.Post? && req.upload.FilePart? && req.upload.clientName != ""
    ensures UploadStep(t, host, req).1 == FileExistsReply <==> FileExists(t.records, req.upload.md5sum)
    ensures FileExists(t.records, req.upload.md5sum) ==> UploadStep(t, host, req).0 == t
  {
  }

  /** Uploading the same content twice, under any names and expiries: the second
      upload gets "file exists" and the table keeps the single row of the first. */
  lemma {:induction false} SameContentTwice(t: Table, host: string, first: Upload, second: Upload)
    requires first.FilePart? && second.FilePart? && first.md5sum == second.md5sum
    requires first.clientName != "" && second.clientName != ""
    requires !FileExists(t.records, first.md5sum)
    ensures
      var t1 := UploadStep(t, host, Post(first)).0;
      && |t1.records| == |t.records| + 1
      && UploadStep(t1, host, Post(second)) == (t1, FileExistsReply)
  {
    var t1 := UploadStep(t, host, Post(first)).0;
    assert t1.records[|t.records|].md5sum == second.md5sum;
  }

  /** The plain-text body upload_file answers with, for each kind of request. */
  lemma UploadReplyTexts(t: Table, host: string, req: Request)
    ensures req.Get? ==> UploadStep(t, host, req).1.Text() == "upload file"
    ensures req == Post(NoFilePart) ==> UploadStep(t, host, req).1.Text() == "no file part"
    ensures req.Post? && req.upload.FilePart? ==>
      var u := req.upload;
      var text := UploadStep(t, host, req).1.Text();
      && (u.clientName == "" ==> text == "no selected file")
      && (u.clientName != "" && FileExists(t.records, u.md5sum) ==> text == "file exists")
      && (u.clientName != "" && !FileExists(t.records, u.md5sum) ==>
            text == host + Base62.Numeral(t.nextId, TokenBase))
  {
  }

  /** Uploads keep content hashes unique across rows. */
  lemma {:induction false} UploadKeepsHashesUnique(t: Table, host: string, req: Request)
    requires UniqueHashes(t.records)
    ensures UniqueHashes(UploadStep(t, host, req).0.records)
  {
    var (t', reply) := UploadStep(t, host, req);
    if reply.Link? {
      var rs, rs' := t.records, t'.records;
      var md5sum := req.upload.md5sum;
      assert rs' == rs + [rs'[|rs|]] && rs'[|rs|].md5sum == md5sum;
      forall i, j | 0 <= i < j < |rs'|
        ensures rs'[i].md5sum != rs'[j].md5sum
      {
        if j == |rs| {
          assert rs'[i] == rs[i];
        } else {
          assert rs'[i] == rs[i] && rs'[j] == rs[j];
        }
      }
    }
  }

  /** The link round trip: the token of a link issued by an upload retrieves the
      row just inserted, under its stored filename. SQLite hands out no id above
      MaxInteger. */
  lemma {:induction false} UploadThenRetrieve(t: Table, host: string, req: Request)
    requires Wellformed(t) && t.nextId <= MaxInteger
    requires UploadStep(t, host, req).1.Link?
    ensures
      var (t', reply) := UploadStep(t, host, req);
      var token := Base62.Numeral(t.nextId, TokenBase);
      && reply.url == host + token
      && Redirect(t'.records, token) == SendFile("uploads/" + req.upload.md5sum, req.upload.safeName)
  {
    var t' := UploadStep(t, host, req).0;
    var token := Base62.Numeral(t.nextId, TokenBase);
    assert Base62.ValueOf(token, TokenBase) == t.nextId by {
      Base62.DecodeEncode(t.nextId, TokenBase);
    }
    var u := req.upload;
    var row := Record(t.nextId, u.safeName, u.md5sum, u.expire);
    assert t'.records[|t.records|] == row;
    assert SelectById(t'.records, t.nextId) == Some(row) by {
      SelectFindsRow(t', |t.records|);
    }
  }

  /** A row, once inserted, is retrieved the same way after any later upload. */
  lemma {:induction false} LinksAreStable(t: Table, host: string, req: Request, token: string)
    requires Wellformed(t)
    requires Redirect(t.records, token).SendFile?
    ensures Redirect(UploadStep(t, host, req).0.records, token) == Redirect(t.records, token)
  {
    var t' := UploadStep(t, host, req).0;
    var id := Base62.ValueOf(token, TokenBase);
    var k :| 0 <= k < |t.records| && t.records[k].id == id;
    assert t'.records[k] == t.records[k];
    SelectFindsRow(t, k);
    SelectFindsRow(t', k);
  }

  /** Two successful uploads in a row issue two different tokens, and so two different links. */
  lemma {:induction false} DistinctUploadsDistinctTokens(t: Table, host: string, first: Request, second: Request)
    requires Wellformed(t)
    requires UploadStep(t, host, first).1.Link?
    requires UploadStep(UploadStep(t, host, first).0, host, second).1.Link?
    ensures
      var (t1, reply1) := UploadStep(t, host, first);
      var reply2 := UploadStep(t1, host, second).1;
      && Base62.Numeral(t.nextId, TokenBase) != Base62.Numeral(t1.nextId, TokenBase)
      && reply1.url != reply2.url
  {
    var (t1, reply1) := UploadStep(t, host, first);
    var reply2 := UploadStep(t1, host, second).1;
    var token1, token2 := Base62.Numeral(t.nextId, TokenBase), Base62.Numeral(t1.nextId, TokenBase);
    Base62.NumeralInjective(t.nextId, t1.nextId, TokenBase);
    assert reply1.url == host + token1 && reply2.url == host + token2;
    assert (host + token1)[|host|..] == token1 && (host + token2)[|host|..] == token2;
  }

  /** A token that decodes to no id handed out so far (below 1, or not yet reached)
      finds no row: "link does not exist" when the id fits an SQLite INTEGER, and the
      query raises otherwise. */
  lemma UnassignedTokenMisses(t: Table, token: string)
    requires Wellformed(t)
    requires Base62.ValueOf(token, TokenBase) < 1 || Base62.ValueOf(token, TokenBase) >= t.nextId
    ensures FitsInteger(Base62.ValueOf(token, TokenBase)) ==> Redirect(t.records, token) == LinkDoesNotExist
    ensures !FitsInteger(Base62.ValueOf(token, TokenBase)) ==> Redirect(t.records, token) == QueryOverflow
  {
  }

  /** The eleven-symbol token "b0000000000" decodes to 11 * 62^10, beyond the largest
      SQLite INTEGER, so retrieving it raises instead of answering. */
  lemma OverflowingToken(t: Table)
    ensures Base62.ValueOf("b0000000000", TokenBase) == 11 * 839299365868340224
    ensures Redirect(t.records, "b0000000000") == QueryOverflow
  {
    assert "b0000000000" == "b" + Base62.Zeros(10);
    assert "b" == [] + ['b'];
    Base62.ValueOfSnoc([], 'b', TokenBase);
    Base62.TrailingZeros("b", 10, TokenBase);
    assert Base62.Power(62, 1) == 62;
    assert Base62.Power(62, 2) == 3844;
    assert Base62.Power(62, 3) == 238328;
    assert Base62.Power(62, 4) == 14776336;
    assert Base62.Power(62, 5) == 916132832;
    assert Base62.Power(62, 6) == 56800235584;
    assert Base62.Power(62, 7) == 3521614606208;
    assert Base62.Power(62, 8) == 218340105584896;
    assert Base62.Power(62, 9) == 13537086546263552;
    assert Base62.Power(62, 10) == 839299365868340224;
  }

  /** "-" decodes to -1 and so is not a link; "a-" decodes like "9Z" and retrieves row 619, if there is one. */
  lemma ForeignTokensAtRetrieval(t: Table)
    requires Wellformed(t)
    ensures Redirect(t.records, "-") == LinkDoesNotExist
    ensures Redirect(t.records, "a-") == Redirect(t.records, "9Z")
  {
    Base62.ForeignSymbolExamples();
    assert Base62.ValueOf("-", TokenBase) == -1;
    assert Base62.ValueOf("a-", TokenBase) == Base62.ValueOf("9Z", TokenBase);
  }
}
