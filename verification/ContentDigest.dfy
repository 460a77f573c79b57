/**
  Content identities of qualification inputs (`aggregate_content_files`,
  `expand_qualification_profile` and `load_http_security_corpus` in qualification.rs).

  Bytes are characters; a byte string is a `string`.  A workspace maps confined
  relative paths, as they are spelt, to what lies there; anything unsafe is absent.
 */
module ContentDigest {
  import opened Basics
  import opened ContentTree
  import opened EnumerationLaws
  import opened Ordering

  // ---- Framing ----

  function BigEndian(n: nat, width: nat): (s: string)
    ensures |s| == width
  {
    if width == 0 then [] else BigEndian(n / 256, width - 1) + [(n % 256) as char]
  }

  /** Path, zero, eight length bytes, zero, digest text, zero. */
  function Frame(file: FileIdentity): string {
    file.path + "\0" + BigEndian(file.length, 8) + "\0" + file.sha256 + "\0"
  }

  /** The byte stream that is hashed over a record list. */
  function Framing(files: seq<FileIdentity>): string {
    if files == [] then [] else Framing(files[..|files| - 1]) + Frame(files[|files| - 1])
  }

  /** `aggregate_content_files`: the hasher is fed part by part. */
  method AggregateContentFiles(files: seq<FileIdentity>, sha256: string -> string) returns (digest: string)
    ensures digest == sha256(Framing(files))
  {
    var fed: string := [];
    for i := 0 to |files|
      invariant fed == Framing(files[..i])
    {
      assert files[..i + 1][..i] == files[..i];
      ghost var before := fed;
      fed := fed + files[i].path;
      fed := fed + "\0";
      fed := fed + BigEndian(files[i].length, 8);
      fed := fed + "\0";
      fed := fed + files[i].sha256;
      fed := fed + "\0";
      assert fed == before + Frame(files[i]);
    }
    assert files[..|files|] == files;
    digest := sha256(fed);
  }

  // ---- Workspaces, freezing and loading ----

  /** What lies at a path. */
  datatype Entry = RegularFile(name: string, bytes: string) | Folder(listing: Listing)

  type Workspace = map<string, Entry>

  /** A corpus case and the reference to its body file, if it has one, as written. */
  datatype Case = Case(id: string, body: Option<string>)

  /** The directory part of a path: what lies before its last slash. */
  function Parent(path: string): string {
    if path == [] || path[|path| - 1] == '/' then (if path == [] then [] else path[..|path| - 1])
    else Parent(path[..|path| - 1])
  }

  function Join(parent: string, path: string): string {
    if parent == [] then path else parent + "/" + path
  }

  /** Where the loader looks for a body before it looks at its content. */
  function WrittenPath(corpus: string, reference: string): string {
    Join(Parent(corpus), reference)
  }

  /** Where both expansion and loader read the content of a body. */
  function ContentPath(corpus: string, reference: string): string {
    Slashed(WrittenPath(corpus, reference))
  }

  /** `content_tree_identity` of a path, or None when it is missing, unsafe or too big. */
  function Identity(workspace: Workspace, path: string, sha256: string -> string): (tree: Option<TreeIdentity>)
    ensures tree.Some? ==> path in workspace
  {
    if path !in workspace then None
    else match workspace[path]
      case RegularFile(name, bytes) =>
        var files := [IdentityOf(name, bytes, sha256)];
        if WithinLimits(files) then Some(IdentityOfFiles(files)) else None
      case Folder(listing) => DirectoryIdentity(listing, sha256)
  }

  method ContentTreeIdentity(workspace: Workspace, path: string, sha256: string -> string)
    returns (tree: Option<TreeIdentity>)
    ensures tree == Identity(workspace, path, sha256)
  {
    hide WithinLimits, DirectoryIdentity;
    if path !in workspace {
      return None;
    }
    match workspace[path] {
      case RegularFile(name, bytes) =>
        NothingRecorded();
        var hashed, records, total := HashFile(name, bytes, [], 0, sha256);
        assert records == [IdentityOf(name, bytes, sha256)];
        return if hashed then Some(TreeIdentity(SortFiles(records), total)) else None;
      case Folder(listing) =>
        tree := WalkTree(listing, sha256);
    }
  }

  function Prefixed(id: string, files: seq<FileIdentity>): seq<FileIdentity> {
    if files == [] then []
    else
      var last := files[|files| - 1];
      Prefixed(id, files[..|files| - 1]) + [last.(path := "body/" + id + "/" + last.path)]
  }

  /** The corpus identity with the bodies of `cases` appended, in case order. */
  function WithBodies(tree: TreeIdentity, corpus: string, cases: seq<Case>, workspace: Workspace,
                      sha256: string -> string): Option<TreeIdentity>
    decreases |cases|
  {
    if cases == [] then Some(tree)
    else
      match cases[0].body
      case None => WithBodies(tree, corpus, cases[1..], workspace, sha256)
      case Some(reference) =>
        match Identity(workspace, ContentPath(corpus, reference), sha256)
        case None => None
        case Some(body) =>
          WithBodies(Extended(tree, cases[0].id, body), corpus, cases[1..], workspace, sha256)
  }

  /** A corpus identity with the records of one body. */
  function Extended(tree: TreeIdentity, id: string, body: TreeIdentity): TreeIdentity {
    TreeIdentity(tree.files + Prefixed(id, body.files), tree.totalBytes + body.totalBytes)
  }

  /** The sorted whole, if it is within the aggregate limits. */
  function Sealed(tree: TreeIdentity): Option<seq<FileIdentity>> {
    if tree.totalBytes > MAX_TOTAL_BYTES || |tree.files| > MAX_FILES then None
    else Some(SortFiles(tree.files))
  }

  /** The records profile expansion freezes for a corpus; a corpus that is a directory
      has no bodies beside it. */
  function FrozenFiles(workspace: Workspace, corpus: string, cases: seq<Case>,
                       sha256: string -> string): (files: Option<seq<FileIdentity>>)
    ensures files.Some? ==> corpus in workspace
  {
    match Identity(workspace, corpus, sha256)
    case None => None
    case Some(tree) =>
      if workspace[corpus].Folder? then Some(tree.files)
      else match WithBodies(tree, corpus, cases, workspace, sha256)
        case None => None
        case Some(whole) => Sealed(whole)
  }

  function FrozenDigest(workspace: Workspace, corpus: string, cases: seq<Case>,
                        sha256: string -> string): Option<string> {
    match FrozenFiles(workspace, corpus, cases, sha256)
    case None => None
    case Some(files) => Some(sha256(Framing(files)))
  }

  /** The corpus part of `expand_qualification_profile`. */
  method FreezeCorpus(workspace: Workspace, corpus: string, cases: seq<Case>, sha256: string -> string)
    returns (digest: Option<string>)
    ensures digest == FrozenDigest(workspace, corpus, cases, sha256)
  {
    hide Identity, Prefixed, SortFiles, WithinLimits, Framing;
    var identity := ContentTreeIdentity(workspace, corpus, sha256);
    if identity.None? {
      return None;
    }
    if workspace[corpus].Folder? {
      var frozen := AggregateContentFiles(identity.value.files, sha256);
      return Some(frozen);
    }
    var tree := identity.value;
    for i := 0 to |cases|
      invariant WithBodies(tree, corpus, cases[i..], workspace, sha256)
             == WithBodies(identity.value, corpus, cases, workspace, sha256)
    {
      assert cases[i..][1..] == cases[i + 1..];
      if cases[i].body.Some? {
        var body := ContentTreeIdentity(workspace, ContentPath(corpus, cases[i].body.value), sha256);
        if body.None? {
          return None;
        }
        tree := Extended(tree, cases[i].id, body.value);
      }
    }
    var files := SortFiles(tree.files);
    if tree.totalBytes > MAX_TOTAL_BYTES || |tree.files| > MAX_FILES {
      return None;
    }
    var d := AggregateContentFiles(files, sha256);
    return Some(d);
  }

  /** The body reference, as written, names a regular file of bounded size. */
  predicate BodyIsRegular(workspace: Workspace, corpus: string, c: Case) {
    c.body.Some? ==>
      var path := WrittenPath(corpus, c.body.value);
      path in workspace && workspace[path].RegularFile? && |workspace[path].bytes| <= MAX_FILE_BYTES
  }

  function LowerCase(c: char): char {
    if 'A' <= c <= 'Z' then (c as int + 32) as char else c
  }

  predicate EqualIgnoringCase(a: string, b: string) {
    |a| == |b| && forall i :: 0 <= i < |a| ==> LowerCase(a[i]) == LowerCase(b[i])
  }

  /** When the loader accepts: the corpus and every body, as written, are regular files
      and the content has, up to letter case, the expected digest. */
  predicate Loads(workspace: Workspace, corpus: string, cases: seq<Case>, expected: string, sha256: string -> string) {
    && corpus in workspace && workspace[corpus].RegularFile?
    && (forall c :: c in cases ==> BodyIsRegular(workspace, corpus, c))
    && var digest := FrozenDigest(workspace, corpus, cases, sha256);
       digest.Some? && EqualIgnoringCase(digest.value, expected)
  }

  /** `load_http_security_corpus`. */
  method LoadCorpus(workspace: Workspace, corpus: string, cases: seq<Case>, expected: string, sha256: string -> string)
    returns (loaded: bool)
    ensures loaded <==> Loads(workspace, corpus, cases, expected, sha256)
  {
    hide Identity, Prefixed, SortFiles, WithinLimits, Framing, EqualIgnoringCase;
    if corpus !in workspace || !workspace[corpus].RegularFile? {
      return false;
    }
    var identity := ContentTreeIdentity(workspace, corpus, sha256);
    if identity.None? {
      return false;
    }
    var tree := identity.value;
    for i := 0 to |cases|
      invariant WithBodies(tree, corpus, cases[i..], workspace, sha256)
             == WithBodies(identity.value, corpus, cases, workspace, sha256)
      invariant forall c :: c in cases[..i] ==> BodyIsRegular(workspace, corpus, c)
    {
      assert cases[i..][1..] == cases[i + 1..];
      assert cases[..i + 1] == cases[..i] + [cases[i]];
      if cases[i].body.Some? {
        var path := WrittenPath(corpus, cases[i].body.value);
        assert cases[i] in cases;
        if path !in workspace || !workspace[path].RegularFile? || |workspace[path].bytes| > MAX_FILE_BYTES {
          return false;
        }
        var body := ContentTreeIdentity(workspace, ContentPath(corpus, cases[i].body.value), sha256);
        if body.None? {
          return false;
        }
        tree := Extended(tree, cases[i].id, body.value);
      }
    }
    assert cases[..|cases|] == cases;
    var files := SortFiles(tree.files);
    var d := AggregateContentFiles(files, sha256);
    if tree.totalBytes > MAX_TOTAL_BYTES || |tree.files| > MAX_FILES {
      return false;
    }
    return EqualIgnoringCase(d, expected);
  }

  /** Over an unchanged workspace the loader accepts a frozen digest exactly when the
      corpus is a regular file and every body reference, as written, names one. */
  lemma FrozenLoads(workspace: Workspace, corpus: string, cases: seq<Case>, sha256: string -> string)
    requires FrozenDigest(workspace, corpus, cases, sha256).Some?
    ensures Loads(workspace, corpus, cases, FrozenDigest(workspace, corpus, cases, sha256).value, sha256)
       <==> workspace[corpus].RegularFile? && forall c :: c in cases ==> BodyIsRegular(workspace, corpus, c)
  {
    hide Framing, WithBodies, Sealed;
  }

  /** A workspace with a one-byte corpus and one more entry. */
  function SmallWorkspace(path: string, entry: Entry): Workspace {
    map["c.json" := RegularFile("c.json", "x"), path := entry]
  }

  lemma SmallCorpusFreezes(path: string, reference: string, entry: Entry, sha256: string -> string)
    requires path != "c.json" && ContentPath("c.json", reference) == path
    requires entry == Folder(End) || entry == RegularFile("c", "y")
    ensures FrozenDigest(SmallWorkspace(path, entry), "c.json", [Case("one", Some(reference))], sha256).Some?
  {
    hide WithinLimits, TotalLength, SortFiles;
    var workspace, cases := SmallWorkspace(path, entry), [Case("one", Some(reference))];
    OneSmallFile("c.json", "x", sha256);
    OneSmallFile("c", "y", sha256);
    EmptyFolder(sha256);
    var tree := Identity(workspace, "c.json", sha256).value;
    var body := Identity(workspace, path, sha256).value;
    assert |body.files| <= 1 && body.totalBytes <= 1;
    PrefixedLength("one", body.files);
    assert cases[1..] == [];
    assert WithBodies(tree, "c.json", cases, workspace, sha256) == Some(Extended(tree, "one", body));
  }

  lemma OneSmallFile(name: string, bytes: string, sha256: string -> string)
    requires |bytes| <= MAX_FILE_BYTES
    ensures var files := [IdentityOf(name, bytes, sha256)];
            && WithinLimits(files) && TotalLength(files) == |bytes| && |SortFiles(files)| == 1
  {
    NothingRecorded();
    var f := IdentityOf(name, bytes, sha256);
    assert [] + [f] == [f];
    LimitsSnoc([], f);
    TotalSnoc([], f);
  }

  lemma EmptyFolder(sha256: string -> string)
    ensures DirectoryIdentity(End, sha256) == Some(TreeIdentity([], 0))
  {
    NothingRecorded();
    assert Walk("", End, sha256) == [];
  }

  lemma {:induction false} PrefixedLength(id: string, files: seq<FileIdentity>)
    ensures |Prefixed(id, files)| == |files|
    decreases |files|
  {
    if files != [] {
      PrefixedLength(id, files[..|files| - 1]);
    }
  }

  lemma SmallCorpusParent()
    ensures Parent("c.json") == []
  {
    assert "c.json"[..5] == "c.jso" && "c.json"[5] == 'n';
    assert "c.jso"[..4] == "c.js" && "c.js"[..3] == "c.j" && "c.j"[..2] == "c." && "c."[..1] == "c" && "c"[..0] == [];
  }

  /** Expansion accepts a body reference to a directory, which the loader refuses: such
      a profile freezes a digest that no load can meet. */
  lemma FolderBodyFreezes(sha256: string -> string)
    ensures var workspace := SmallWorkspace("b", Folder(End));
            var cases := [Case("one", Some("b"))];
            && FrozenDigest(workspace, "c.json", cases, sha256).Some?
            && forall expected :: !Loads(workspace, "c.json", cases, expected, sha256)
  {
    hide FrozenDigest, Slashed, Parent;
    SmallCorpusParent();
    SmallCorpusFreezes("b", "b", Folder(End), sha256);
    var c := Case("one", Some("b"));
    assert c in [c] && !BodyIsRegular(SmallWorkspace("b", Folder(End)), "c.json", c);
  }

  /** Expansion reads a backslash in a body reference as a slash, and the loader first
      looks for a file of exactly that name: a digest frozen for `b\c` never loads. */
  lemma BackslashBodyFreezes(sha256: string -> string)
    ensures var workspace := SmallWorkspace("b/c", RegularFile("c", "y"));
            var cases := [Case("one", Some("b\\c"))];
            && FrozenDigest(workspace, "c.json", cases, sha256).Some?
            && forall expected :: !Loads(workspace, "c.json", cases, expected, sha256)
  {
    hide FrozenDigest, Slashed, Parent;
    var reference := "b\\c";
    SmallCorpusParent();
    assert reference == ['b', '\\', 'c'];
    SmallCorpusFreezes("b/c", reference, RegularFile("c", "y"), sha256);
    var c := Case("one", Some(reference));
    assert reference[1] != "b/c"[1];
    assert c in [c] && !BodyIsRegular(SmallWorkspace("b/c", RegularFile("c", "y")), "c.json", c);
  }

  // ---- The framing determines the list ----

  predicate FrameOk(file: FileIdentity) {
    '\0' !in file.path && file.length < 0x1_0000_0000_0000_0000 && |file.sha256| == 64
  }

  /** The number that bytes stand for, the most significant first. */
  function FromBigEndian(bytes: string): nat {
    if bytes == [] then 0 else 256 * FromBigEndian(bytes[..|bytes| - 1]) + bytes[|bytes| - 1] as nat
  }

  lemma {:induction false} BigEndianValue(n: nat, width: nat)
    requires n < Power256(width)
    ensures FromBigEndian(BigEndian(n, width)) == n
    decreases width
  {
    if width > 0 {
      BigEndianValue(n / 256, width - 1);
      assert BigEndian(n, width)[..width - 1] == BigEndian(n / 256, width - 1);
    }
  }

  function Power256(width: nat): nat {
    if width == 0 then 1 else 256 * Power256(width - 1)
  }

  /** Everything after the path has fixed width and is read from the end. */
  lemma LastFrame(a: FileIdentity, b: FileIdentity, x: string, y: string)
    requires FrameOk(a) && FrameOk(b) && x + Frame(a) == y + Frame(b)
    ensures x + a.path == y + b.path && a.length == b.length && a.sha256 == b.sha256
  {
    var s := x + Frame(a);
    var n := |s|;
    assert n == |x| + |a.path| + 75 == |y| + |b.path| + 75;
    Tail(a, x);
    Tail(b, y);
    assert Power256(8) == 0x1_0000_0000_0000_0000;
    BigEndianValue(a.length, 8);
    BigEndianValue(b.length, 8);
  }

  lemma Tail(file: FileIdentity, before: string)
    requires |file.sha256| == 64
    ensures var s := before + Frame(file);
            && |s| == |before| + |file.path| + 75
            && s[..|s| - 75] == before + file.path
            && s[|s| - 74..|s| - 66] == BigEndian(file.length, 8)
            && s[|s| - 65..|s| - 1] == file.sha256
  {
    var s := before + Frame(file);
    var p := before + file.path;
    assert s == p + ("\0" + BigEndian(file.length, 8) + "\0" + file.sha256 + "\0");
    assert s == p + "\0" + (BigEndian(file.length, 8) + ("\0" + file.sha256 + "\0"));
    assert s == p + "\0" + BigEndian(file.length, 8) + "\0" + (file.sha256 + "\0");
  }

  lemma ZeroInside(x: string, p: string, y: string, q: string)
    requires x + p == y + q
    ensures |x| < |y| && y[|y| - 1] == '\0' ==> '\0' in p
  {
    if |x| < |y| {
      assert (y + q)[|y| - 1] == y[|y| - 1];
      assert (x + p)[|y| - 1] == p[|y| - 1 - |x|];
    }
  }

  /** A zero-free path after a zero-terminated text has only one possible start. */
  lemma PathStart(x: string, p: string, y: string, q: string)
    requires x + p == y + q && '\0' !in p && '\0' !in q
    requires x != [] ==> x[|x| - 1] == '\0'
    requires y != [] ==> y[|y| - 1] == '\0'
    ensures x == y && p == q
  {
    ZeroInside(x, p, y, q);
    ZeroInside(y, q, x, p);
    assert |x| == |y|;
    assert x == (x + p)[..|x|] && y == (y + q)[..|y|];
    assert p == (x + p)[|x|..] && q == (y + q)[|y|..];
  }

  /** For zero-free paths and 64-character digests, the hashed byte stream determines
      the record list. */
  lemma {:induction false} FramingInjective(a: seq<FileIdentity>, b: seq<FileIdentity>)
    requires forall f :: f in a ==> FrameOk(f)
    requires forall f :: f in b ==> FrameOk(f)
    requires Framing(a) == Framing(b)
    ensures a == b
    decreases |a|
  {
    if a != [] && b != [] {
      var ai, al := a[..|a| - 1], a[|a| - 1];
      var bi, bl := b[..|b| - 1], b[|b| - 1];
      LastFrame(al, bl, Framing(ai), Framing(bi));
      PathStart(Framing(ai), al.path, Framing(bi), bl.path);
      FramingInjective(ai, bi);
      assert a == ai + [al] && b == bi + [bl];
    }
  }

  /** Unless the two byte streams collide, equal aggregate digests mean equal lists. */
  lemma AggregateDeterminesFiles(a: seq<FileIdentity>, b: seq<FileIdentity>, sha256: string -> string)
    requires forall f :: f in a ==> FrameOk(f)
    requires forall f :: f in b ==> FrameOk(f)
    requires sha256(Framing(a)) == sha256(Framing(b)) ==> Framing(a) == Framing(b)
    ensures sha256(Framing(a)) == sha256(Framing(b)) <==> a == b
  {
    if sha256(Framing(a)) == sha256(Framing(b)) {
      FramingInjective(a, b);
    }
  }

  // ---- A load finds exactly the frozen files ----

  /** Digests are 64 characters of lower case. */
  ghost predicate DigestText(sha256: string -> string) {
    forall x :: |sha256(x)| == 64 && forall c :: c in sha256(x) ==> LowerCase(c) == c
  }

  /** Some digest is of that form. */
  lemma DigestTextExists()
    ensures DigestText(_ => seq(64, _ => '0'))
  {
  }

  /** What every record has by construction, whatever its path. */
  predicate Hashed(file: FileIdentity) {
    file.length <= MAX_FILE_BYTES && |file.sha256| == 64
  }

  ghost predicate AllHashed(files: seq<FileIdentity>) {
    forall f :: f in files ==> Hashed(f)
  }

  lemma {:induction false} WalkHashed(prefix: string, l: Listing, sha256: string -> string)
    requires DigestText(sha256)
    ensures forall f :: f in Files(prefix, l, sha256) ==> |f.sha256| == 64
    ensures forall f :: f in Subs(prefix, l, sha256) ==> |f.sha256| == 64
    decreases l
  {
    match l
    case End =>
    case FileThen(_, _, rest) => WalkHashed(prefix, rest, sha256);
    case DirThen(name, inner, rest) =>
      WalkHashed(prefix, rest, sha256);
      WalkHashed(Inside(prefix, name), inner, sha256);
  }

  lemma {:induction false} PrefixedHashed(id: string, files: seq<FileIdentity>)
    requires AllHashed(files)
    ensures AllHashed(Prefixed(id, files))
    decreases |files|
  {
    if files != [] {
      var init, last := files[..|files| - 1], files[|files| - 1];
      assert last in files;
      PrefixedHashed(id, init);
    }
  }

  lemma IdentityHashed(workspace: Workspace, path: string, sha256: string -> string)
    requires DigestText(sha256) && Identity(workspace, path, sha256).Some?
    ensures AllHashed(Identity(workspace, path, sha256).value.files)
  {
    hide SortBy, TotalLength;
    match workspace[path]
    case RegularFile(name, bytes) =>
      SortByFacts([IdentityOf(name, bytes, sha256)], PathOf);
    case Folder(listing) =>
      WalkHashed("", listing, sha256);
      SortByFacts(Walk("", listing, sha256), PathOf);
  }

  lemma {:induction false} BodiesHashed(tree: TreeIdentity, corpus: string, cases: seq<Case>, workspace: Workspace,
                                        sha256: string -> string)
    requires DigestText(sha256) && AllHashed(tree.files)
    requires WithBodies(tree, corpus, cases, workspace, sha256).Some?
    ensures AllHashed(WithBodies(tree, corpus, cases, workspace, sha256).value.files)
    decreases |cases|
  {
    hide Identity, DigestText, Hashed, ContentPath;
    if cases != [] {
      var next := tree;
      if cases[0].body.Some? {
        var path := ContentPath(corpus, cases[0].body.value);
        IdentityHashed(workspace, path, sha256);
        var body := Identity(workspace, path, sha256).value;
        PrefixedHashed(cases[0].id, body.files);
        next := Extended(tree, cases[0].id, body);
      }
      BodiesHashed(next, corpus, cases[1..], workspace, sha256);
    }
  }

  lemma FrozenFilesHashed(workspace: Workspace, corpus: string, cases: seq<Case>, sha256: string -> string)
    requires DigestText(sha256) && FrozenFiles(workspace, corpus, cases, sha256).Some?
    ensures AllHashed(FrozenFiles(workspace, corpus, cases, sha256).value)
  {
    hide Identity, DigestText, Hashed, WithBodies;
    IdentityHashed(workspace, corpus, sha256);
    var tree := Identity(workspace, corpus, sha256).value;
    if !workspace[corpus].Folder? {
      BodiesHashed(tree, corpus, cases, workspace, sha256);
      SortByFacts(WithBodies(tree, corpus, cases, workspace, sha256).value.files, PathOf);
    }
  }

  lemma LowerCaseDigestsAgree(a: string, b: string, sha256: string -> string)
    requires DigestText(sha256) && EqualIgnoringCase(sha256(a), sha256(b))
    ensures sha256(a) == sha256(b)
  {
    var x, y := sha256(a), sha256(b);
    forall i | 0 <= i < |x|
      ensures x[i] == y[i]
    {
      assert x[i] in x && y[i] in y;
    }
    assert x == y;
  }

  ghost predicate ZeroFree(files: seq<FileIdentity>) {
    forall f :: f in files ==> '\0' !in f.path
  }

  /** A digest frozen over one state of the workspace loads over another only if both
      hold the same corpus and body files (same paths, lengths and content digests), or
      their two record lists collide under the digest. */
  lemma LoadFindsFrozenFiles(frozen: Workspace, loaded: Workspace, corpus: string, before: seq<Case>, after: seq<Case>,
                             sha256: string -> string)
    requires DigestText(sha256) && FrozenFiles(frozen, corpus, before, sha256).Some?
    requires Loads(loaded, corpus, after, FrozenDigest(frozen, corpus, before, sha256).value, sha256)
    requires ZeroFree(FrozenFiles(frozen, corpus, before, sha256).value)
    requires ZeroFree(FrozenFiles(loaded, corpus, after, sha256).value)
    ensures var a := FrozenFiles(frozen, corpus, before, sha256).value;
            var b := FrozenFiles(loaded, corpus, after, sha256).value;
            && sha256(Framing(a)) == sha256(Framing(b))
            && (a == b <==> Framing(a) == Framing(b))
  {
    hide FrozenFiles, DigestText, EqualIgnoringCase, Framing;
    var a := FrozenFiles(frozen, corpus, before, sha256).value;
    var b := FrozenFiles(loaded, corpus, after, sha256).value;
    LowerCaseDigestsAgree(Framing(b), Framing(a), sha256);
    FrozenFilesHashed(frozen, corpus, before, sha256);
    FrozenFilesHashed(loaded, corpus, after, sha256);
    if Framing(a) == Framing(b) {
      FramingInjective(a, b);
    }
  }

  // ---- The order of enumeration ----

  /** Two states of a workspace that differ at most in the order in which directories are
      read, where no order shows. */
  ghost predicate Reenumerated(a: Workspace, b: Workspace, sha256: string -> string) {
    && a.Keys == b.Keys
    && forall p :: p in a ==>
         || a[p] == b[p]
         || (&& a[p].Folder? && b[p].Folder?
             && WellNamed(b[p].listing) && SameTree(a[p].listing, b[p].listing) && OrderFree(a[p].listing, sha256))
  }

  lemma IdentityOrderFree(a: Workspace, b: Workspace, path: string, sha256: string -> string)
    requires Reenumerated(a, b, sha256)
    ensures Identity(a, path, sha256) == Identity(b, path, sha256)
    ensures path in a ==> (a[path].Folder? <==> b[path].Folder?)
  {
    hide DirectoryIdentity, SameTree, WellNamed;
  }

  lemma {:induction false} BodiesOrderFree(tree: TreeIdentity, corpus: string, cases: seq<Case>, a: Workspace,
                                           b: Workspace,
                                           sha256: string -> string)
    requires Reenumerated(a, b, sha256)
    ensures WithBodies(tree, corpus, cases, a, sha256) == WithBodies(tree, corpus, cases, b, sha256)
    decreases |cases|
  {
    hide Identity, ContentPath, Reenumerated;
    if cases != [] {
      if cases[0].body.None? {
        BodiesOrderFree(tree, corpus, cases[1..], a, b, sha256);
      } else {
        var path := ContentPath(corpus, cases[0].body.value);
        IdentityOrderFree(a, b, path, sha256);
        if Identity(a, path, sha256).Some? {
          BodiesOrderFree(Extended(tree, cases[0].id, Identity(a, path, sha256).value), corpus, cases[1..], a, b,
                          sha256);
        }
      }
    }
  }

  /** The frozen digest does not depend on the order of enumeration either. */
  lemma FrozenOrderFree(a: Workspace, b: Workspace, corpus: string, cases: seq<Case>, sha256: string -> string)
    requires Reenumerated(a, b, sha256)
    ensures FrozenDigest(a, corpus, cases, sha256) == FrozenDigest(b, corpus, cases, sha256)
  {
    hide Identity, WithBodies, Reenumerated, Framing, Sealed;
    IdentityOrderFree(a, b, corpus, sha256);
    if Identity(a, corpus, sha256).Some? {
      BodiesOrderFree(Identity(a, corpus, sha256).value, corpus, cases, a, b, sha256);
    }
  }
}
