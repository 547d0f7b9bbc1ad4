/** The two-member backup archive: the tar layout the writer produces and the
    bounded streaming reader that unpacks it. The stream is the decompressed one.
    The header codec and the receipt's comparison with the database are arguments. */
module CustodyArchive {
  import opened Common

  const BLOCK := 512
  const RECORD := 10240
  const CHUNK := 1024 * 1024

  /** Member names: accounts.sqlite3, backup-receipt.json, or anything else. */
  datatype Name = Database | Receipt | Other(text: string)

  /** What the reader looks at in a member header; a size field may hold a negative number. */
  datatype Header = Header(name: Name, regular: bool, linkName: string, size: int)

  datatype CustodyError =
    | Truncated
    | UnexpectedEntries
    | TrailingData
    | InvalidHeader
    | LinkOrExcessive
    | InvalidPadding
    | InvalidBundle
    | TooLarge

  /** The files created in the output directory, and the failure if there was one. */
  datatype Outcome = Outcome(files: map<Name, Bytes>, error: Option<CustodyError>)

  type Decoder = Bytes -> Option<Header>

  /** A header block for a plain member; none when the size does not fit its field. */
  type Encoder = (Name, nat) -> Option<Bytes>

  /** Whether a receipt (first) describes a database (second). */
  type Matcher = (Bytes, Bytes) -> bool

  /** The fields of a receipt that are compared with the database. */
  datatype ReceiptFields = ReceiptFields(formatVersion: int, databaseSha256: string, databaseBytes: int)

  /** The comparison itself, for a parser of receipts and a digest. */
  function ReceiptMatcher(parse: Bytes -> Option<ReceiptFields>, digest: Bytes -> string): Matcher {
    (receipt, db) => parse(receipt) == Some(ReceiptFields(1, digest(db), |db|))
  }

  predicate ValidBundle(matches: Matcher, files: map<Name, Bytes>) {
    files.Keys == {Database, Receipt} && matches(files[Receipt], files[Database])
  }

  function Zeros(n: nat): (z: Bytes)
    ensures |z| == n
  {
    seq(n, i => 0)
  }

  predicate AllZero(s: Bytes) {
    forall i :: 0 <= i < |s| ==> s[i] == 0
  }

  function Padding(size: nat): (p: nat)
    ensures p < 512
  {
    -(size as int) % BLOCK
  }

  /** Content and padding together fill whole blocks. */
  lemma {:induction false} PaddingAligns(size: nat)
    ensures (size + Padding(size)) % 512 == 0
  {
    var blocks := -(-(size as int) / BLOCK);
    assert size + Padding(size) == BLOCK * blocks;
  }

  predicate Expected(name: Name) {
    !name.Other?
  }

  function Written(files: map<Name, Bytes>): nat {
    (if Database in files then |files[Database]| else 0) + (if Receipt in files then |files[Receipt]| else 0)
  }

  // ----- the reader's decisions

  /** The verdict on an end-of-archive block followed by `rest`. */
  function EndOfArchive(files: map<Name, Bytes>, rest: Bytes): Option<CustodyError> {
    var tail := rest[..Min(|rest|, RECORD + 1)];
    if !(Database in files && Receipt in files) then Some(UnexpectedEntries)
    else if |tail| <= RECORD && |tail| >= BLOCK && AllZero(tail) then None
    else Some(TrailingData)
  }

  /** The verdict on a member header, before anything is written. */
  function HeaderFault(files: map<Name, Bytes>, expanded: nat, budget: nat, h: Option<Header>): Option<CustodyError> {
    if |files| >= 2 then Some(UnexpectedEntries)
    else if h.None? then Some(InvalidHeader)
    else if !Expected(h.value.name) || h.value.name in files then Some(UnexpectedEntries)
    else if !(h.value.regular && h.value.linkName == "" && 0 <= h.value.size <= budget - expanded)
    then Some(LinkOrExcessive)
    else None
  }

  /** Reading the stream s with some members already unpacked. */
  function Unpack(decode: Decoder, s: Bytes, files: map<Name, Bytes>, expanded: nat, budget: nat): Outcome
    decreases |s|, 0
  {
    if |s| < BLOCK then Outcome(files, Some(Truncated))
    else
      var block, rest := s[..BLOCK], s[BLOCK..];
      if AllZero(block) then Outcome(files, EndOfArchive(files, rest))
      else
        var h := decode(block);
        var fault := HeaderFault(files, expanded, budget, h);
        if fault.Some? then Outcome(files, fault)
        else UnpackMember(decode, rest, files, expanded, budget, h.value.name, h.value.size)
  }

  /** A member cut short leaves what there was of it. */
  function UnpackMember(decode: Decoder, s: Bytes, files: map<Name, Bytes>, expanded: nat, budget: nat, name: Name,
                        size: nat): Outcome
    decreases |s|, 1
  {
    if |s| < size then Outcome(files[name := s], Some(Truncated))
    else
      var files', rest := files[name := s[..size]], s[size..];
      var pad := rest[..Min(|rest|, Padding(size))];
      if |pad| == Padding(size) && AllZero(pad)
      then Unpack(decode, rest[Padding(size)..], files', expanded + size, budget)
      else Outcome(files', Some(InvalidPadding))
  }

  // ----- the budget

  /** The members unpacked so far are expected ones and their sizes add up to what has been counted. */
  ghost predicate Accounted(files: map<Name, Bytes>, expanded: nat) {
    (forall n :: n in files ==> Expected(n)) && Written(files) == expanded
  }

  lemma {:induction false} UnpackWithinBudget(decode: Decoder, s: Bytes, files: map<Name, Bytes>, expanded: nat,
                                              budget: nat)
    requires Accounted(files, expanded) && expanded <= budget
    ensures Written(Unpack(decode, s, files, expanded, budget).files) <= budget
    ensures forall n :: n in Unpack(decode, s, files, expanded, budget).files ==> Expected(n)
    decreases |s|, 0
  {
    hide EndOfArchive, AllZero;
    if |s| >= BLOCK && !AllZero(s[..BLOCK]) {
      var h := decode(s[..BLOCK]);
      if HeaderFault(files, expanded, budget, h).None? {
        MemberWithinBudget(decode, s[BLOCK..], files, expanded, budget, h.value.name, h.value.size);
      }
    }
  }

  lemma {:induction false} AccountedWritten(files: map<Name, Bytes>, expanded: nat)
    requires Accounted(files, expanded)
    ensures Written(files) == expanded && forall n :: n in files ==> Expected(n)
  {
  }

  lemma {:induction false} AddMember(files: map<Name, Bytes>, expanded: nat, name: Name, content: Bytes)
    requires Accounted(files, expanded) && Expected(name) && name !in files
    ensures Accounted(files[name := content], expanded + |content|)
  {
  }

  lemma {:induction false} MemberWithinBudget(decode: Decoder, s: Bytes, files: map<Name, Bytes>, expanded: nat,
                                              budget: nat, name: Name, size: nat)
    requires Accounted(files, expanded) && expanded + size <= budget && Expected(name) && name !in files
    ensures Written(UnpackMember(decode, s, files, expanded, budget, name, size).files) <= budget
    ensures forall n :: n in UnpackMember(decode, s, files, expanded, budget, name, size).files ==> Expected(n)
    decreases |s|, 1
  {
    hide AllZero, Padding, Accounted, Unpack;
    if |s| < size {
      AddMember(files, expanded, name, s);
      AccountedWritten(files[name := s], expanded + |s|);
    } else {
      var files', rest := files[name := s[..size]], s[size..];
      AddMember(files, expanded, name, s[..size]);
      AccountedWritten(files', expanded + size);
      if |rest| >= Padding(size) {
        UnpackWithinBudget(decode, rest[Padding(size)..], files', expanded + size, budget);
      }
    }
  }

  // ----- the writer's layout

  function Member(header: Bytes, content: Bytes): Bytes {
    header + content + Zeros(Padding(|content|))
  }

  /** Two zero blocks, then zeros up to a whole record. */
  function Trailer(length: nat): Bytes {
    Zeros(2 * BLOCK + (RECORD - (length + 2 * BLOCK) % RECORD) % RECORD)
  }

  function Layout(dbHeader: Bytes, db: Bytes, receiptHeader: Bytes, receipt: Bytes): Bytes {
    var members := Member(dbHeader, db) + Member(receiptHeader, receipt);
    members + Trailer(|members|)
  }

  /** After the first end-of-archive block the writer leaves between 512 and 10240 zero bytes. */
  lemma {:induction false} TrailerBounds(length: nat)
    requires length % 512 == 0
    ensures 512 <= |Trailer(length)| - 512 <= 10240
  {
    var k := length / BLOCK;
    var total := length + 2 * BLOCK;
    assert total == BLOCK * (k + 2);
    var q := total / RECORD;
    assert total % RECORD == BLOCK * (k + 2 - 20 * q);
  }

  /** Both ends of that range occur. */
  lemma {:induction false} TrailerBoundsTight()
    ensures |Trailer(18 * 512)| - 512 == 512
    ensures |Trailer(19 * 512)| - 512 == 10240
  {
  }

  lemma {:induction false} MemberLength(header: Bytes, content: Bytes)
    requires |header| == BLOCK
    ensures |Member(header, content)| % BLOCK == 0 && |Member(header, content)| >= BLOCK
  {
    hide Padding;
    var n := |content| + Padding(|content|);
    PaddingAligns(|content|);
    assert |Member(header, content)| == n + BLOCK;
  }

  /** A header block that is not an end marker and decodes to a plain member of this name and size. */
  predicate Describes(decode: Decoder, header: Bytes, name: Name, size: nat) {
    |header| == 512 && !AllZero(header) && decode(header) == Some(Header(name, true, "", size))
  }

  /** The reader takes a well-described member off the front of the stream if it fits the budget, else refuses it. */
  lemma {:induction false} UnpackOne(decode: Decoder, header: Bytes, content: Bytes, rest: Bytes,
                                     files: map<Name, Bytes>, expanded: nat, budget: nat, name: Name)
    requires Describes(decode, header, name, |content|) && Expected(name) && name !in files && |files| < 2
    requires expanded <= budget
    ensures Unpack(decode, Member(header, content) + rest, files, expanded, budget) ==
            if expanded + |content| <= budget
            then Unpack(decode, rest, files[name := content], expanded + |content|, budget)
            else Outcome(files, Some(LinkOrExcessive))
  {
    hide EndOfArchive, Padding;
    var size := |content|;
    var s, p := Member(header, content) + rest, Padding(size);
    assert s[..BLOCK] == header;
    var t := s[BLOCK..];
    assert t == content + Zeros(p) + rest;
    if expanded + size <= budget {
      assert t[..size] == content;
      assert t[size..] == Zeros(p) + rest;
      assert t[size..][..p] == Zeros(p);
      assert t[size..][p..] == rest;
    }
  }

  lemma {:induction false} UnpackTrailer(decode: Decoder, n: nat, files: map<Name, Bytes>, expanded: nat, budget: nat)
    requires 2 * BLOCK <= n <= RECORD + BLOCK && Database in files && Receipt in files
    ensures Unpack(decode, Zeros(n), files, expanded, budget) == Outcome(files, None)
  {
    assert AllZero(Zeros(n)[..BLOCK]);
  }

  /** A member as it stands in a stream. */
  datatype Plain = Plain(header: Bytes, name: Name, content: Bytes)

  /** The stream s is two plain members, one of each expected name in either order, and n zeros. */
  predicate TwoMembers(decode: Decoder, s: Bytes, a: Plain, b: Plain, n: nat) {
    && s == Member(a.header, a.content) + (Member(b.header, b.content) + Zeros(n))
    && Describes(decode, a.header, a.name, |a.content|) && Describes(decode, b.header, b.name, |b.content|)
    && {a.name, b.name} == {Database, Receipt} && 1024 <= n <= 10752
  }

  lemma {:induction false} TwoNames(a: Name, b: Name)
    requires {a, b} == {Database, Receipt}
    ensures Expected(a) && Expected(b) && a != b && Database in {a, b} && Receipt in {a, b}
  {
    assert a in {a, b} && b in {a, b} && Database in {a, b} && Receipt in {a, b};
  }

  /** Such a stream unpacks to its contents when both sizes together fit the budget, and is refused otherwise. */
  lemma {:induction false} TwoMembersUnpack(decode: Decoder, s: Bytes, a: Plain, b: Plain, n: nat, budget: nat)
    requires TwoMembers(decode, s, a, b, n)
    ensures Unpack(decode, s, map[], 0, budget).error == None <==> |a.content| + |b.content| <= budget
    ensures Unpack(decode, s, map[], 0, budget).error in {None, Some(LinkOrExcessive)}
    ensures Unpack(decode, s, map[], 0, budget).error == None ==>
      Unpack(decode, s, map[], 0, budget).files == map[a.name := a.content, b.name := b.content]
  {
    hide Unpack, Member, Zeros, Describes, Expected;
    TwoNames(a.name, b.name);
    UnpackOne(decode, a.header, a.content, Member(b.header, b.content) + Zeros(n), map[], 0, budget, a.name);
    var files := map[a.name := a.content];
    assert map[][a.name := a.content] == files;
    if |a.content| <= budget {
      UnpackOne(decode, b.header, b.content, Zeros(n), files, |a.content|, budget, b.name);
      if |a.content| + |b.content| <= budget {
        UnpackTrailer(decode, n, files[b.name := b.content], |a.content| + |b.content|, budget);
      }
    }
  }

  /** Unpacking what was archived succeeds, with the same contents, exactly when both sizes together fit the budget. */
  lemma {:induction false} RoundTrip(decode: Decoder, dbHeader: Bytes, db: Bytes, receiptHeader: Bytes, receipt: Bytes,
                                     budget: nat)
    requires Describes(decode, dbHeader, Database, |db|) && Describes(decode, receiptHeader, Receipt, |receipt|)
    ensures var out := Unpack(decode, Layout(dbHeader, db, receiptHeader, receipt), map[], 0, budget);
            && (out.error == None <==> |db| + |receipt| <= budget)
            && (out.error == None ==> out.files == map[Database := db, Receipt := receipt])
            && (out.error != None ==> out.error == Some(LinkOrExcessive))
  {
    hide Unpack, Layout, Member, Zeros, Describes;
    var n := LayoutParts(decode, dbHeader, db, receiptHeader, receipt);
    var a, b := Plain(dbHeader, Database, db), Plain(receiptHeader, Receipt, receipt);
    TwoMembersUnpack(decode, Layout(dbHeader, db, receiptHeader, receipt), a, b, n, budget);
  }

  /** The archive is its two members and a run of zeros of a length the reader admits. */
  lemma {:induction false} LayoutParts(decode: Decoder, dbHeader: Bytes, db: Bytes, receiptHeader: Bytes,
                                       receipt: Bytes)
    returns (n: nat)
    requires Describes(decode, dbHeader, Database, |db|) && Describes(decode, receiptHeader, Receipt, |receipt|)
    ensures Layout(dbHeader, db, receiptHeader, receipt)
            == Member(dbHeader, db) + (Member(receiptHeader, receipt) + Zeros(n))
    ensures 2 * BLOCK <= n <= RECORD + BLOCK
  {
    hide Member, Trailer, Describes;
    var m1, m2 := Member(dbHeader, db), Member(receiptHeader, receipt);
    HeaderLengths(decode, dbHeader, Database, |db|);
    HeaderLengths(decode, receiptHeader, Receipt, |receipt|);
    MemberLength(dbHeader, db);
    MemberLength(receiptHeader, receipt);
    TrailerFits(m1, m2);
    n := |Trailer(|m1 + m2|)|;
    assert m1 + m2 + Zeros(n) == m1 + (m2 + Zeros(n));
  }

  lemma {:induction false} TrailerFits(m1: Bytes, m2: Bytes)
    requires |m1| % BLOCK == 0 && |m2| % BLOCK == 0
    ensures var t := Trailer(|m1 + m2|); t == Zeros(|t|) && 2 * BLOCK <= |t| <= RECORD + BLOCK
  {
    hide Trailer;
    assert |m1 + m2| % BLOCK == 0;
    TrailerBounds(|m1 + m2|);
    TrailerZeros(|m1 + m2|);
  }

  lemma {:induction false} HeaderLengths(decode: Decoder, header: Bytes, name: Name, size: nat)
    requires Describes(decode, header, name, size)
    ensures |header| == BLOCK
  {
  }

  lemma {:induction false} TrailerZeros(length: nat)
    ensures Trailer(length) == Zeros(|Trailer(length)|)
  {
  }

  // ----- nothing else is accepted

  lemma {:induction false} ZeroRun(s: Bytes)
    requires AllZero(s)
    ensures s == Zeros(|s|)
  {
  }

  /** The end of an accepted stream is zeros and nothing else. */
  lemma {:induction false} AcceptedEnd(decode: Decoder, s: Bytes, files: map<Name, Bytes>, expanded: nat, budget: nat)
    requires Unpack(decode, s, files, expanded, budget).error == None && |s| >= BLOCK && AllZero(s[..BLOCK])
    ensures s == Zeros(|s|) && 2 * BLOCK <= |s| <= RECORD + BLOCK && Database in files && Receipt in files
    ensures Unpack(decode, s, files, expanded, budget).files == files
  {
    var rest := s[BLOCK..];
    var tail := rest[..Min(|rest|, RECORD + 1)];
    assert tail == rest;
    ZeroRun(s[..BLOCK]);
    ZeroRun(rest);
    assert s == s[..BLOCK] + rest;
  }

  lemma {:induction false} AcceptedHeader(decode: Decoder, s: Bytes, files: map<Name, Bytes>, expanded: nat,
                                          budget: nat)
    requires Unpack(decode, s, files, expanded, budget).error == None && |s| >= BLOCK && !AllZero(s[..BLOCK])
    ensures decode(s[..BLOCK]).Some?
    ensures var h := decode(s[..BLOCK]).value;
            && Expected(h.name) && h.name !in files && |files| < 2
            && 0 <= h.size && Describes(decode, s[..BLOCK], h.name, h.size)
            && Unpack(decode, s, files, expanded, budget)
               == UnpackMember(decode, s[BLOCK..], files, expanded, budget, h.name, h.size)
  {
    hide EndOfArchive, UnpackMember, AllZero;
    var fault := HeaderFault(files, expanded, budget, decode(s[..BLOCK]));
  }

  lemma {:induction false} AcceptedContent(decode: Decoder, s: Bytes, files: map<Name, Bytes>, expanded: nat,
                                           budget: nat, name: Name, size: nat)
    requires UnpackMember(decode, s, files, expanded, budget, name, size).error == None
    ensures |s| >= size + Padding(size) && s == s[..size] + Zeros(Padding(size)) + s[size + Padding(size)..]
    ensures UnpackMember(decode, s, files, expanded, budget, name, size)
            == Unpack(decode, s[size + Padding(size)..], files[name := s[..size]], expanded + size, budget)
  {
    hide Unpack, Padding;
    var pad := Padding(size);
    var u := s[size..];
    ZeroRun(u[..pad]);
    assert u[pad..] == s[size + pad..];
    assert s == s[..size] + u && u == u[..pad] + u[pad..];
  }

  /** An accepted stream that does not end here starts with one whole plain member. */
  lemma {:induction false} AcceptedMember(decode: Decoder, s: Bytes, files: map<Name, Bytes>, expanded: nat,
                                          budget: nat)
    returns (p: Plain, rest: Bytes)
    requires Unpack(decode, s, files, expanded, budget).error == None && |s| >= BLOCK && !AllZero(s[..BLOCK])
    ensures s == Member(p.header, p.content) + rest && Describes(decode, p.header, p.name, |p.content|)
    ensures Expected(p.name) && p.name !in files && |files| < 2
    ensures Unpack(decode, s, files, expanded, budget)
            == Unpack(decode, rest, files[p.name := p.content], expanded + |p.content|, budget)
  {
    hide Unpack, UnpackMember, Padding, Zeros, AllZero, Describes;
    AcceptedHeader(decode, s, files, expanded, budget);
    var h, t := decode(s[..BLOCK]).value, s[BLOCK..];
    AcceptedContent(decode, t, files, expanded, budget, h.name, h.size);
    p, rest := Plain(s[..BLOCK], h.name, t[..h.size]), t[h.size + Padding(h.size)..];
    assert s == p.header + t;
  }

  lemma {:induction false} AcceptedLongEnough(decode: Decoder, s: Bytes, files: map<Name, Bytes>, expanded: nat,
                                              budget: nat)
    requires Unpack(decode, s, files, expanded, budget).error == None
    ensures |s| >= BLOCK
  {
  }

  /** Every accepted stream is two plain members, one of each expected name, and between 1024 and 10752 zeros: no
      other entry, no hidden data, and the unpacked files are exactly the members' contents. */
  lemma {:induction false} AcceptedIsCanonical(decode: Decoder, s: Bytes, budget: nat)
    returns (a: Plain, b: Plain, n: nat)
    requires Unpack(decode, s, map[], 0, budget).error == None
    ensures TwoMembers(decode, s, a, b, n)
    ensures Unpack(decode, s, map[], 0, budget).files == map[a.name := a.content, b.name := b.content]
  {
    hide Unpack, Describes, Member, AllZero;
    AcceptedLongEnough(decode, s, map[], 0, budget);
    if AllZero(s[..BLOCK]) {
      AcceptedEnd(decode, s, map[], 0, budget);
    }
    var t, u;
    a, t := AcceptedMember(decode, s, map[], 0, budget);
    var f1, e1 := map[a.name := a.content], 0 + |a.content|;
    assert map[][a.name := a.content] == f1;
    AcceptedLongEnough(decode, t, f1, e1, budget);
    if AllZero(t[..BLOCK]) {
      AcceptedEnd(decode, t, f1, e1, budget);
    }
    b, u := AcceptedMember(decode, t, f1, e1, budget);
    var f2, e2 := f1[b.name := b.content], e1 + |b.content|;
    assert a.name != b.name;
    AcceptedLongEnough(decode, u, f2, e2, budget);
    assert |f2| == 2;
    if !AllZero(u[..BLOCK]) {
      var c, v := AcceptedMember(decode, u, f2, e2, budget);
    }
    AcceptedEnd(decode, u, f2, e2, budget);
    n := |u|;
  }

  // ----- what each refusal means

  /** The errors of the stream itself; the receipt's comparison has its own. */
  predicate StreamError(e: Option<CustodyError>) {
    e in {None, Some(Truncated), Some(UnexpectedEntries), Some(TrailingData), Some(InvalidHeader),
          Some(LinkOrExcessive), Some(InvalidPadding)}
  }

  lemma {:induction false} UnpackErrors(decode: Decoder, s: Bytes, files: map<Name, Bytes>, expanded: nat, budget: nat)
    ensures StreamError(Unpack(decode, s, files, expanded, budget).error)
    decreases |s|, 0
  {
    hide AllZero, Padding;
    if |s| >= BLOCK && !AllZero(s[..BLOCK]) {
      var h := decode(s[..BLOCK]);
      if HeaderFault(files, expanded, budget, h).None? {
        MemberErrors(decode, s[BLOCK..], files, expanded, budget, h.value.name, h.value.size);
      }
    }
  }

  lemma {:induction false} MemberErrors(decode: Decoder, s: Bytes, files: map<Name, Bytes>, expanded: nat, budget: nat,
                                        name: Name, size: nat)
    ensures StreamError(UnpackMember(decode, s, files, expanded, budget, name, size).error)
    decreases |s|, 1
  {
    hide AllZero, Padding, Unpack;
    if |s| >= size && |s| - size >= Padding(size) {
      UnpackErrors(decode, s[size..][Padding(size)..], files[name := s[..size]], expanded + size, budget);
    }
  }

  /** Where the stream is refused at its next block, and why: in the order the reader looks. */
  lemma {:induction false} BlockRefusals(decode: Decoder, s: Bytes, files: map<Name, Bytes>, expanded: nat, budget: nat)
    ensures var out := Unpack(decode, s, files, expanded, budget);
            var ends := |s| >= 512 && AllZero(s[..512]);
            var both := Database in files && Receipt in files;
            && (|s| < 512 ==> out == Outcome(files, Some(Truncated)))
            && (ends && !both ==> out == Outcome(files, Some(UnexpectedEntries)))
            && (ends && both && !(1024 <= |s| <= 10752 && AllZero(s[512..])) ==>
                  out == Outcome(files, Some(TrailingData)))
            && (ends && both && 1024 <= |s| <= 10752 && AllZero(s[512..]) ==> out == Outcome(files, None))
            && (|s| >= 512 && !ends && |files| >= 2 ==> out == Outcome(files, Some(UnexpectedEntries)))
            && (|s| >= 512 && !ends && |files| < 2 && decode(s[..512]).None? ==>
                  out == Outcome(files, Some(InvalidHeader)))
  {
    hide UnpackMember;
    if |s| >= 512 {
      var rest := s[512..];
      if |rest| <= RECORD {
        assert rest[..|rest|] == rest;
      }
    }
  }

  /** The same for a member whose header can be read. */
  lemma {:induction false} MemberRefusals(decode: Decoder, s: Bytes, files: map<Name, Bytes>, expanded: nat,
                                          budget: nat)
    requires |s| >= 512 && !AllZero(s[..512]) && |files| < 2 && decode(s[..512]).Some?
    ensures var out, h := Unpack(decode, s, files, expanded, budget), decode(s[..512]).value;
            var wanted := h.name in {Database, Receipt} && h.name !in files;
            var plain := h.regular && h.linkName == "" && 0 <= h.size <= budget - expanded;
            && (!wanted ==> out == Outcome(files, Some(UnexpectedEntries)))
            && (wanted && !plain ==> out == Outcome(files, Some(LinkOrExcessive)))
            && (wanted && plain && |s| - 512 < h.size ==> out == Outcome(files[h.name := s[512..]], Some(Truncated)))
            && (wanted && plain && |s| - 512 >= h.size ==>
                  var end, pad := 512 + h.size, Padding(h.size);
                  |s| < end + pad || !AllZero(s[end..end + pad]) ==>
                    out == Outcome(files[h.name := s[512..end]], Some(InvalidPadding)))
  {
    hide Padding, EndOfArchive;
    var h, t := decode(s[..512]).value, s[512..];
    if 0 <= h.size <= |t| {
      var rest := t[h.size..];
      assert t[..h.size] == s[512..512 + h.size];
      if |rest| >= Padding(h.size) {
        assert rest[..Padding(h.size)] == s[512 + h.size..512 + h.size + Padding(h.size)];
      }
    }
  }

  /** Two plain members of the expected names, in either order and together within the budget, and the zeros. */
  ghost predicate Canonical(decode: Decoder, s: Bytes, budget: nat) {
    exists a, b, n :: TwoMembers(decode, s, a, b, n) && |a.content| + |b.content| <= budget
  }

  /** The reader accepts exactly the canonical streams. */
  lemma {:induction false} AcceptsExactly(decode: Decoder, s: Bytes, budget: nat)
    ensures Unpack(decode, s, map[], 0, budget).error == None <==> Canonical(decode, s, budget)
  {
    hide Unpack, TwoMembers;
    if Unpack(decode, s, map[], 0, budget).error == None {
      var a, b, n := AcceptedIsCanonical(decode, s, budget);
      TwoMembersUnpack(decode, s, a, b, n, budget);
    }
    if a, b, n :| TwoMembers(decode, s, a, b, n) && |a.content| + |b.content| <= budget {
      TwoMembersUnpack(decode, s, a, b, n, budget);
    }
  }

  // ----- the streaming reader and the writer

  /** Up to n bytes at a position. */
  function Read(s: Bytes, pos: nat, n: nat): Bytes
    requires pos <= |s|
  {
    s[pos..Min(|s|, pos + n)]
  }

  /** Unpacking ends with the bundle's own validity test. */
  function Validated(matches: Matcher, out: Outcome): Outcome {
    if out.error == None && !ValidBundle(matches, out.files) then out.(error := Some(InvalidBundle)) else out
  }

  /** Copy a member's content in bounded blocks; what there is of it is copied even when the stream ends early. */
  method CopyContent(source: Bytes, start: nat, size: nat) returns (content: Bytes, complete: bool)
    requires start <= |source|
    ensures complete == (size <= |source| - start)
    ensures content == Read(source, start, size)
  {
    content := [];
    var remaining := size;
    while remaining > 0
      invariant 0 <= remaining <= size && start + (size - remaining) <= |source|
      invariant content == source[start..start + (size - remaining)]
    {
      var pos := start + (size - remaining);
      var block := Read(source, pos, Min(remaining, CHUNK));
      if block == [] {
        return content, false;
      }
      assert content + block == source[start..pos + |block|];
      content := content + block;
      remaining := remaining - |block|;
    }
    complete := true;
  }

  /** One header block has been read and is not the end marker. */
  lemma {:induction false} MemberStep(decode: Decoder, source: Bytes, pos: nat, files: map<Name, Bytes>, expanded: nat,
                                      budget: nat)
    requires pos + BLOCK <= |source| && !AllZero(source[pos..pos + BLOCK])
    ensures var h := decode(source[pos..pos + BLOCK]);
            var fault := HeaderFault(files, expanded, budget, h);
            Unpack(decode, source[pos..], files, expanded, budget) ==
            if fault.Some? then Outcome(files, fault)
            else UnpackMember(decode, source[pos + BLOCK..], files, expanded, budget, h.value.name, h.value.size)
  {
    hide UnpackMember, EndOfArchive;
    assert source[pos..][..BLOCK] == source[pos..pos + BLOCK];
    assert source[pos..][BLOCK..] == source[pos + BLOCK..];
  }

  lemma {:induction false} ContentStep(decode: Decoder, source: Bytes, pos: nat, files: map<Name, Bytes>, expanded: nat,
                                       budget: nat, name: Name, size: nat)
    requires pos <= |source|
    ensures var content, next := Read(source, pos, size), pos + size;
            UnpackMember(decode, source[pos..], files, expanded, budget, name, size) ==
            if |content| < size then Outcome(files[name := content], Some(Truncated))
            else
              var pad := Read(source, next, Padding(size));
              if |pad| == Padding(size) && AllZero(pad)
              then Unpack(decode, source[next + Padding(size)..], files[name := content], expanded + size, budget)
              else Outcome(files[name := content], Some(InvalidPadding))
  {
    hide Unpack, Padding;
    var s, next := source[pos..], pos + size;
    if |s| < size {
      assert Read(source, pos, size) == s;
    } else {
      assert s[..size] == Read(source, pos, size);
      assert s[size..] == source[next..];
      var p := Padding(size);
      assert source[next..][..Min(|source[next..]|, p)] == Read(source, next, p);
      if |source| - next >= p {
        assert source[next..][p..] == source[next + p..];
      }
    }
  }

  lemma {:induction false} EndStep(decode: Decoder, source: Bytes, pos: nat, files: map<Name, Bytes>, expanded: nat,
                                   budget: nat)
    requires pos + BLOCK <= |source| && AllZero(source[pos..pos + BLOCK])
    ensures var tail := Read(source, pos + BLOCK, RECORD + 1);
            Unpack(decode, source[pos..], files, expanded, budget) == Outcome(files,
              if !(Database in files && Receipt in files) then Some(UnexpectedEntries)
              else if |tail| <= RECORD && |tail| >= BLOCK && AllZero(tail) then None
              else Some(TrailingData))
  {
    assert source[pos..][..BLOCK] == source[pos..pos + BLOCK];
    var rest := source[pos..][BLOCK..];
    assert rest[..Min(|rest|, RECORD + 1)] == Read(source, pos + BLOCK, RECORD + 1);
  }

  /** Copy a member's content and check its padding. */
  method ReadPayload(decode: Decoder, source: Bytes, pos: nat, files: map<Name, Bytes>, expanded: nat, budget: nat,
                     name: Name, size: nat)
    returns (next: nat, files': map<Name, Bytes>, error: Option<CustodyError>)
    requires pos <= |source|
    ensures error.Some? ==> UnpackMember(decode, source[pos..], files, expanded, budget, name, size)
                            == Outcome(files', error)
    ensures error.None? ==> pos <= next <= |source|
    ensures error.None? ==> UnpackMember(decode, source[pos..], files, expanded, budget, name, size)
                            == Unpack(decode, source[next..], files', expanded + size, budget)
  {
    hide Unpack, UnpackMember, Padding, AllZero;
    ContentStep(decode, source, pos, files, expanded, budget, name, size);
    var content, complete := CopyContent(source, pos, size);
    next, files', error := pos + size + Padding(size), files[name := content], None;
    if !complete {
      error := Some(Truncated);
      return;
    }
    var pad := Read(source, pos + size, Padding(size));
    if !(|pad| == Padding(size) && AllZero(pad)) {
      error := Some(InvalidPadding);
    }
  }

  /** Take one member off the stream at `pos`. */
  method ReadMember(decode: Decoder, source: Bytes, pos: nat, files: map<Name, Bytes>, expanded: nat, budget: nat)
    returns (next: nat, files': map<Name, Bytes>, expanded': nat, error: Option<CustodyError>)
    requires pos + BLOCK <= |source| && !AllZero(source[pos..pos + BLOCK])
    ensures error.Some? ==> Unpack(decode, source[pos..], files, expanded, budget) == Outcome(files', error)
    ensures error.None? ==> pos < next <= |source|
    ensures error.None? ==> Unpack(decode, source[pos..], files, expanded, budget)
                            == Unpack(decode, source[next..], files', expanded', budget)
  {
    hide Unpack, UnpackMember, AllZero;
    MemberStep(decode, source, pos, files, expanded, budget);
    var h := decode(source[pos..pos + BLOCK]);
    next, files', expanded', error := pos, files, expanded, HeaderFault(files, expanded, budget, h);
    if error.None? {
      expanded' := expanded + h.value.size;
      next, files', error :=
        ReadPayload(decode, source, pos + BLOCK, files, expanded, budget, h.value.name, h.value.size);
    }
  }

  /** Acceptance is a canonical stream whose receipt matches its database; a canonical stream whose receipt does not is
      the one case of its own error. */
  lemma {:induction false} ValidatedExactly(decode: Decoder, s: Bytes, budget: nat, matches: Matcher)
    ensures var out := Validated(matches, Unpack(decode, s, map[], 0, budget));
            && (Canonical(decode, s, budget) ==>
                  && Database in out.files && Receipt in out.files
                  && out.error == if matches(out.files[Receipt], out.files[Database]) then None
                                  else Some(InvalidBundle))
            && (!Canonical(decode, s, budget) ==> out.error != None && out.error != Some(InvalidBundle))
  {
    hide Unpack, Canonical, TwoMembers;
    AcceptsExactly(decode, s, budget);
    UnpackErrors(decode, s, map[], 0, budget);
    if Unpack(decode, s, map[], 0, budget).error == None {
      var a, b, n := AcceptedIsCanonical(decode, s, budget);
      BothNames(decode, s, a, b, n);
    }
  }

  lemma {:induction false} BothNames(decode: Decoder, s: Bytes, a: Plain, b: Plain, n: nat)
    requires TwoMembers(decode, s, a, b, n)
    ensures (map[a.name := a.content, b.name := b.content]).Keys == {Database, Receipt}
  {
    hide Describes, Member, Zeros;
    TwoNames(a.name, b.name);
  }

  /** Unpack a downloaded archive: whatever the stream, never more than the budget is written, and only to the two
      expected names. */
  method UnpackBundle(decode: Decoder, source: Bytes, budget: nat, matches: Matcher) returns (out: Outcome)
    ensures out == Validated(matches, Unpack(decode, source, map[], 0, budget))
    ensures Written(out.files) <= budget && forall n :: n in out.files ==> n == Database || n == Receipt
    ensures Canonical(decode, source, budget) ==>
      && Database in out.files && Receipt in out.files
      && out.error == if matches(out.files[Receipt], out.files[Database]) then None else Some(InvalidBundle)
    ensures !Canonical(decode, source, budget) ==> out.error != None && out.error != Some(InvalidBundle)
  {
    ValidatedExactly(decode, source, budget, matches);
    UnpackWithinBudget(decode, source, map[], 0, budget);
    hide Unpack, Written, AllZero, EndOfArchive, Expected;
    ghost var spec := Unpack(decode, source, map[], 0, budget);
    assert source[0..] == source;
    var files: map<Name, Bytes>, expanded: nat, pos: nat := map[], 0, 0;
    while true
      invariant pos <= |source| && Unpack(decode, source[pos..], files, expanded, budget) == spec
      decreases |source| - pos
    {
      if |Read(source, pos, BLOCK)| != BLOCK {
        TooShort(decode, source[pos..], files, expanded, budget);
        return Outcome(files, Some(Truncated));
      }
      if AllZero(source[pos..pos + BLOCK]) {
        EndStep(decode, source, pos, files, expanded, budget);
        if !(Database in files && Receipt in files) {
          return Outcome(files, Some(UnexpectedEntries));
        }
        var tail := Read(source, pos + BLOCK, RECORD + 1);
        if !(|tail| <= RECORD && |tail| >= BLOCK && AllZero(tail)) {
          return Outcome(files, Some(TrailingData));
        }
        break;
      }
      var error: Option<CustodyError>;
      pos, files, expanded, error := ReadMember(decode, source, pos, files, expanded, budget);
      if error.Some? {
        return Outcome(files, error);
      }
    }
    out := Outcome(files, if ValidBundle(matches, files) then None else Some(InvalidBundle));
  }

  lemma {:induction false} TooShort(decode: Decoder, s: Bytes, files: map<Name, Bytes>, expanded: nat, budget: nat)
    requires |s| < BLOCK
    ensures Unpack(decode, s, files, expanded, budget) == Outcome(files, Some(Truncated))
  {
  }

  function Archive(encode: Encoder, matches: Matcher, bundle: map<Name, Bytes>): Result<Bytes, CustodyError> {
    if !ValidBundle(matches, bundle) then Err(InvalidBundle)
    else
      var db, receipt := bundle[Database], bundle[Receipt];
      var h1, h2 := encode(Database, |db|), encode(Receipt, |receipt|);
      if h1.None? || h2.None? then Err(TooLarge) else Ok(Layout(h1.value, db, h2.value, receipt))
  }

  /** Archive a bundle, database first. */
  method ArchiveBundle(encode: Encoder, matches: Matcher, bundle: map<Name, Bytes>)
    returns (r: Result<Bytes, CustodyError>)
    ensures r == Archive(encode, matches, bundle)
    ensures r == Err(InvalidBundle)
            <==> bundle.Keys != {Database, Receipt} || !matches(bundle[Receipt], bundle[Database])
    ensures r == Err(TooLarge)
            <==> && bundle.Keys == {Database, Receipt} && matches(bundle[Receipt], bundle[Database])
                 && (encode(Database, |bundle[Database]|).None? || encode(Receipt, |bundle[Receipt]|).None?)
    ensures r.Ok? ==> r.value == Layout(encode(Database, |bundle[Database]|).value, bundle[Database],
                                        encode(Receipt, |bundle[Receipt]|).value, bundle[Receipt])
  {
    hide Member, Trailer;
    if !ValidBundle(matches, bundle) {
      return Err(InvalidBundle);
    }
    var names := [Database, Receipt];
    var archive: Bytes := [];
    for i := 0 to 2
      invariant i >= 1 ==> encode(Database, |bundle[Database]|).Some?
      invariant i == 2 ==> encode(Receipt, |bundle[Receipt]|).Some?
      invariant i == 0 ==> archive == []
      invariant i == 1 ==> archive == Member(encode(Database, |bundle[Database]|).value, bundle[Database])
      invariant i == 2 ==> archive == Member(encode(Database, |bundle[Database]|).value, bundle[Database])
                                      + Member(encode(Receipt, |bundle[Receipt]|).value, bundle[Receipt])
    {
      var content := bundle[names[i]];
      var header := encode(names[i], |content|);
      if header.None? {
        return Err(TooLarge);
      }
      archive := archive + Member(header.value, content);
    }
    r := Ok(archive + Trailer(|archive|));
  }

  /** Every header the writer can make is read back as the plain member it was made for. */
  ghost predicate HeadersRoundTrip(encode: Encoder, decode: Decoder) {
    forall name, size: nat | encode(name, size).Some? :: Describes(decode, encode(name, size).value, name, size)
  }

  /** What was archived comes back file for file, exactly when its two sizes together fit the budget. */
  lemma {:induction false} ArchiveRoundTrip(encode: Encoder, decode: Decoder, matches: Matcher,
                                            bundle: map<Name, Bytes>, budget: nat)
    requires HeadersRoundTrip(encode, decode) && Archive(encode, matches, bundle).Ok?
    ensures var out := Validated(matches, Unpack(decode, Archive(encode, matches, bundle).value, map[], 0, budget));
            && (out.error == None <==> Written(bundle) <= budget)
            && (out.error == None ==> out.files == bundle)
  {
    hide Unpack, Layout, Describes;
    var db, receipt := bundle[Database], bundle[Receipt];
    RoundTrip(decode, encode(Database, |db|).value, db, encode(Receipt, |receipt|).value, receipt, budget);
    assert bundle == map[Database := db, Receipt := receipt];
  }

  /** The budget passed when a downloaded copy is verified. */
  function CopyBudget(databaseBytes: nat): nat {
    if databaseBytes <= 65536 then 65536 else databaseBytes
  }

  /** A fresh archive passes its own copy verification exactly when database and receipt together fit in 64 KiB:
      a larger database leaves no room for the receipt, which is never empty. */
  lemma {:induction false} CopyVerification(encode: Encoder, decode: Decoder, matches: Matcher,
                                            bundle: map<Name, Bytes>)
    requires HeadersRoundTrip(encode, decode) && Archive(encode, matches, bundle).Ok? && bundle[Receipt] != []
    ensures var archive, budget := Archive(encode, matches, bundle).value, CopyBudget(|bundle[Database]|);
            Validated(matches, Unpack(decode, archive, map[], 0, budget)).error == None
            <==> |bundle[Database]| + |bundle[Receipt]| <= 65536
  {
    hide Unpack, Layout, HeadersRoundTrip, Validated;
    ArchiveRoundTrip(encode, decode, matches, bundle, CopyBudget(|bundle[Database]|));
  }

  /** Every valid bundle whose database has 65,536 bytes or more is archived and then refused. */
  lemma {:induction false} LargeDatabaseRefused(encode: Encoder, decode: Decoder, matches: Matcher,
                                                bundle: map<Name, Bytes>)
    requires HeadersRoundTrip(encode, decode) && ValidBundle(matches, bundle) && bundle[Receipt] != []
    requires encode(Database, |bundle[Database]|).Some? && encode(Receipt, |bundle[Receipt]|).Some?
    requires |bundle[Database]| >= 65536
    ensures Archive(encode, matches, bundle).Ok?
    ensures var archive, budget := Archive(encode, matches, bundle).value, CopyBudget(|bundle[Database]|);
            Validated(matches, Unpack(decode, archive, map[], 0, budget)).error == Some(LinkOrExcessive)
  {
    hide Unpack, Layout, HeadersRoundTrip;
    var db, receipt := bundle[Database], bundle[Receipt];
    CopyVerification(encode, decode, matches, bundle);
    MadeHeaders(encode, decode, Database, |db|);
    MadeHeaders(encode, decode, Receipt, |receipt|);
    RoundTrip(decode, encode(Database, |db|).value, db, encode(Receipt, |receipt|).value, receipt, CopyBudget(|db|));
  }

  lemma {:induction false} MadeHeaders(encode: Encoder, decode: Decoder, name: Name, size: nat)
    requires HeadersRoundTrip(encode, decode) && encode(name, size).Some?
    ensures Describes(decode, encode(name, size).value, name, size)
  {
  }

  /** One such bundle: 65,536 zero bytes and any receipt that parses to their digest and size. */
  lemma {:induction false} ZeroDatabaseRefused(encode: Encoder, decode: Decoder, parse: Bytes -> Option<ReceiptFields>,
                                               digest: Bytes -> string, receipt: Bytes)
    requires HeadersRoundTrip(encode, decode) && encode(Database, 65536).Some? && encode(Receipt, |receipt|).Some?
    requires parse([]) == None && parse(receipt) == Some(ReceiptFields(1, digest(Zeros(65536)), 65536))
    ensures var matches, bundle := ReceiptMatcher(parse, digest), map[Database := Zeros(65536), Receipt := receipt];
            && Archive(encode, matches, bundle).Ok?
            && Validated(matches, Unpack(decode, Archive(encode, matches, bundle).value, map[], 0, 65536)).error
               == Some(LinkOrExcessive)
  {
    hide Unpack, Layout, HeadersRoundTrip, Archive, Validated, Zeros;
    var matches, bundle := ReceiptMatcher(parse, digest), map[Database := Zeros(65536), Receipt := receipt];
    LargeDatabaseRefused(encode, decode, matches, bundle);
  }

  /** A receipt matches a database exactly when it parses to format 1, the database's digest and its size. */
  lemma {:induction false} ReceiptMatches(parse: Bytes -> Option<ReceiptFields>, digest: Bytes -> string,
                                          receipt: Bytes, db: Bytes)
    ensures ReceiptMatcher(parse, digest)(receipt, db)
            <==> && parse(receipt).Some? && parse(receipt).value.formatVersion == 1
                 && parse(receipt).value.databaseSha256 == digest(db) && parse(receipt).value.databaseBytes == |db|
  {
  }

  /** So a canonical stream is accepted exactly when its receipt names the format, the digest and the size of the
      database beside it, and any other receipt is refused as an invalid bundle. */
  lemma {:induction false} MismatchRefused(decode: Decoder, s: Bytes, budget: nat,
                                           parse: Bytes -> Option<ReceiptFields>, digest: Bytes -> string)
    requires Canonical(decode, s, budget)
    ensures var out := Validated(ReceiptMatcher(parse, digest), Unpack(decode, s, map[], 0, budget));
            && Database in out.files && Receipt in out.files
            && var f, db := parse(out.files[Receipt]), out.files[Database];
               out.error == if f.Some? && f.value.formatVersion == 1 && f.value.databaseSha256 == digest(db)
                               && f.value.databaseBytes == |db| then None else Some(InvalidBundle)
  {
    hide Unpack, Canonical, Validated;
    var matches := ReceiptMatcher(parse, digest);
    ValidatedExactly(decode, s, budget, matches);
    var out := Validated(matches, Unpack(decode, s, map[], 0, budget));
    ReceiptMatches(parse, digest, out.files[Receipt], out.files[Database]);
  }

  /** An archive is a whole number of 10 KiB records. */
  lemma {:induction false} LayoutAligned(dbHeader: Bytes, db: Bytes, receiptHeader: Bytes, receipt: Bytes)
    ensures |Layout(dbHeader, db, receiptHeader, receipt)| % 10240 == 0
  {
    hide Member;
    var n := |Member(dbHeader, db) + Member(receiptHeader, receipt)|;
    var t := n + 1024;
    assert |Layout(dbHeader, db, receiptHeader, receipt)| == t + (10240 - t % 10240) % 10240;
    Aligned(t);
  }

  lemma {:induction false} Aligned(t: nat)
    ensures (t + (10240 - t % 10240) % 10240) % 10240 == 0
  {
    var q, r := t / 10240, t % 10240;
    if r != 0 {
      assert t + (10240 - r) == 10240 * (q + 1);
    }
  }
}
