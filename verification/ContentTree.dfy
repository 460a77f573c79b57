/**
  The identity of one content tree (`content_tree_identity` and `hash_file` in qualification.rs).  A directory lists
  its entries in read order.  The traversal keeps a stack: it records the files of the directory on top while reading
  it, and pushes its subdirectories, so the one read last is walked first.
 */
module ContentTree {
  import opened Basics
  import opened Ordering

  const MAX_FILES: nat := 1024
  const MAX_FILE_BYTES: nat := 8 * 1024 * 1024
  const MAX_TOTAL_BYTES: nat := 64 * 1024 * 1024
  const MAX_DEPTH: nat := 16
  const MAX_RELATIVE_BYTES: nat := 512

  datatype FileIdentity = FileIdentity(path: string, length: nat, sha256: string)

  datatype TreeIdentity = TreeIdentity(files: seq<FileIdentity>, totalBytes: nat)

  /** A directory, entry by entry in read order. */
  datatype Listing =
    | End
    | FileThen(name: string, bytes: string, rest: Listing)
    | DirThen(name: string, inner: Listing, rest: Listing)

  /** Backslashes become slashes. */
  function Slashed(path: string): (r: string)
    ensures |r| == |path|
    ensures forall i :: 0 <= i < |path| ==> r[i] == if path[i] == '\\' then '/' else path[i]
  {
    if path == [] then []
    else Slashed(path[..|path| - 1]) + [if path[|path| - 1] == '\\' then '/' else path[|path| - 1]]
  }

  function PathOf(file: FileIdentity): string { file.path }

  /** Stable sort by path. */
  function SortFiles(files: seq<FileIdentity>): seq<FileIdentity> {
    SortBy(files, PathOf)
  }

  function IdentityOf(path: string, bytes: string, sha256: string -> string): FileIdentity {
    FileIdentity(path, |bytes|, sha256(bytes))
  }

  function FileRecord(prefix: string, name: string, bytes: string, sha256: string -> string): FileIdentity {
    IdentityOf(Slashed(prefix + name), bytes, sha256)
  }

  // ---- The order in which files are met ----

  function Inside(prefix: string, name: string): string { prefix + name + "/" }

  /** The files of one directory, in read order. */
  function Files(prefix: string, l: Listing, sha256: string -> string): seq<FileIdentity> {
    match l
    case End => []
    case FileThen(name, bytes, rest) => [FileRecord(prefix, name, bytes, sha256)] + Files(prefix, rest, sha256)
    case DirThen(_, _, rest) => Files(prefix, rest, sha256)
  }

  /** What lies in its subdirectories, the one read last coming first. */
  function Subs(prefix: string, l: Listing, sha256: string -> string): seq<FileIdentity>
    decreases l, 0
  {
    match l
    case End => []
    case FileThen(_, _, rest) => Subs(prefix, rest, sha256)
    case DirThen(name, inner, rest) => Subs(prefix, rest, sha256) + Walk(Inside(prefix, name), inner, sha256)
  }

  function Walk(prefix: string, l: Listing, sha256: string -> string): seq<FileIdentity>
    decreases l, 1
  {
    Files(prefix, l, sha256) + Subs(prefix, l, sha256)
  }

  /** How deep the deepest subdirectory lies. */
  function Depth(l: Listing): nat {
    match l
    case End => 0
    case FileThen(_, _, rest) => Depth(rest)
    case DirThen(_, inner, rest) => Larger(1 + Depth(inner), Depth(rest))
  }

  function Larger(a: nat, b: nat): nat { if a <= b then b else a }

  // ---- Which files a directory holds ----

  /** Some file under `prefix` is recorded as `path` and has these bytes. */
  predicate HoldsUnder(prefix: string, l: Listing, path: string, bytes: string)
    decreases l
  {
    match l
    case End => false
    case FileThen(name, content, rest) =>
      (content == bytes && Slashed(prefix + name) == path) || HoldsUnder(prefix, rest, path, bytes)
    case DirThen(name, inner, rest) =>
      HoldsUnder(prefix + name + "/", inner, path, bytes) || HoldsUnder(prefix, rest, path, bytes)
  }

  /** The records of a walk are those of the files, each with its own length and digest. */
  lemma {:induction false} WalkMembers(prefix: string, l: Listing, f: FileIdentity, sha256: string -> string)
    ensures f in Walk(prefix, l, sha256)
       <==> exists bytes :: HoldsUnder(prefix, l, f.path, bytes) && f.length == |bytes| && f.sha256 == sha256(bytes)
    decreases l
  {
    hide Slashed;
    match l
    case End =>
    case FileThen(name, content, rest) =>
      WalkMembers(prefix, rest, f, sha256);
      assert HoldsUnder(prefix, l, Slashed(prefix + name), content);
    case DirThen(name, inner, rest) =>
      WalkMembers(prefix, rest, f, sha256);
      WalkMembers(Inside(prefix, name), inner, f, sha256);
  }

  // ---- Limits ----

  function TotalLength(files: seq<FileIdentity>): nat {
    if files == [] then 0 else TotalLength(files[..|files| - 1]) + files[|files| - 1].length
  }

  /** The bounds on file count, single files and their sum. */
  predicate WithinLimits(files: seq<FileIdentity>) {
    && |files| <= MAX_FILES && TotalLength(files) <= MAX_TOTAL_BYTES
    && forall f :: f in files ==> f.length <= MAX_FILE_BYTES
  }

  predicate PathsFit(files: seq<FileIdentity>) {
    forall f :: f in files ==> Utf8Length(f.path) <= MAX_RELATIVE_BYTES
  }

  predicate Accepts(files: seq<FileIdentity>) {
    WithinLimits(files) && PathsFit(files)
  }

  predicate TreeFits(l: Listing, sha256: string -> string) {
    Depth(l) <= MAX_DEPTH && Accepts(Walk("", l, sha256))
  }

  function IdentityOfFiles(files: seq<FileIdentity>): TreeIdentity {
    TreeIdentity(SortFiles(files), TotalLength(files))
  }

  /** The identity of a directory, or None when it exceeds a limit. */
  function DirectoryIdentity(l: Listing, sha256: string -> string): Option<TreeIdentity> {
    if TreeFits(l, sha256) then Some(IdentityOfFiles(Walk("", l, sha256))) else None
  }

  lemma AcceptsSnoc(files: seq<FileIdentity>, f: FileIdentity)
    ensures Accepts(files + [f]) <==>
              && Accepts(files) && |files| < MAX_FILES
              && f.length <= MAX_FILE_BYTES && TotalLength(files) + f.length <= MAX_TOTAL_BYTES
              && Utf8Length(f.path) <= MAX_RELATIVE_BYTES
    ensures TotalLength(files + [f]) == TotalLength(files) + f.length
  {
    hide Utf8Length, TotalLength;
    var longer := files + [f];
    TotalSnoc(files, f);
    assert forall g :: g in longer <==> g in files || g == f;
  }

  lemma NothingRecorded()
    ensures WithinLimits([]) && Accepts([]) && TotalLength([]) == 0
  {
  }

  lemma TotalSnoc(files: seq<FileIdentity>, f: FileIdentity)
    ensures TotalLength(files + [f]) == TotalLength(files) + f.length
  {
    assert (files + [f])[..|files|] == files;
  }

  lemma {:induction false} AcceptsPrefix(a: seq<FileIdentity>, b: seq<FileIdentity>)
    requires Accepts(a + b)
    ensures Accepts(a)
    decreases |b|
  {
    hide Accepts;
    if b == [] {
      assert a + b == a;
    } else {
      var init := b[..|b| - 1];
      assert (a + init) + [b[|b| - 1]] == a + b;
      AcceptsSnoc(a + init, b[|b| - 1]);
      AcceptsPrefix(a, init);
    }
  }

  // ---- The traversal ----

  datatype Pending = Pending(prefix: string, listing: Listing, depth: nat)

  /** What a stack still holds, the top being walked first. */
  function PendingWalk(stack: seq<Pending>, sha256: string -> string): seq<FileIdentity> {
    if stack == [] then []
    else
      var top := stack[|stack| - 1];
      Walk(top.prefix, top.listing, sha256) + PendingWalk(stack[..|stack| - 1], sha256)
  }

  predicate Shallow(item: Pending) {
    item.depth + Depth(item.listing) <= MAX_DEPTH
  }

  predicate AllShallow(stack: seq<Pending>) {
    forall i :: 0 <= i < |stack| ==> Shallow(stack[i])
  }

  function Size(l: Listing): nat {
    match l
    case End => 1
    case FileThen(_, _, rest) => 1 + Size(rest)
    case DirThen(_, inner, rest) => 1 + Size(inner) + Size(rest)
  }

  function PendingSize(stack: seq<Pending>): nat {
    if stack == [] then 0 else PendingSize(stack[..|stack| - 1]) + Size(stack[|stack| - 1].listing)
  }

  lemma PendingPush(stack: seq<Pending>, item: Pending, sha256: string -> string)
    ensures PendingWalk(stack + [item], sha256)
         == Walk(item.prefix, item.listing, sha256) + PendingWalk(stack, sha256)
    ensures PendingSize(stack + [item]) == PendingSize(stack) + Size(item.listing)
    ensures AllShallow(stack + [item]) <==> AllShallow(stack) && Shallow(item)
  {
    assert (stack + [item])[..|stack|] == stack;
    if AllShallow(stack + [item]) {
      assert forall i :: 0 <= i < |stack| ==> (stack + [item])[i] == stack[i];
      assert (stack + [item])[|stack|] == item;
    }
  }

  lemma LimitsSnoc(files: seq<FileIdentity>, f: FileIdentity)
    ensures WithinLimits(files + [f]) <==>
              && WithinLimits(files) && |files| < MAX_FILES
              && f.length <= MAX_FILE_BYTES && TotalLength(files) + f.length <= MAX_TOTAL_BYTES
  {
    hide TotalLength;
    var longer := files + [f];
    TotalSnoc(files, f);
    assert forall g :: g in longer <==> g in files || g == f;
  }

  /** `hash_file`: one more record, unless a limit is reached. */
  method HashFile(path: string, bytes: string, records: seq<FileIdentity>, total: nat, sha256: string -> string)
    returns (ok: bool, longer: seq<FileIdentity>, newTotal: nat)
    requires WithinLimits(records) && total == TotalLength(records)
    ensures longer == records + [FileIdentity(path, |bytes|, sha256(bytes))] && newTotal == TotalLength(longer)
    ensures ok <==> WithinLimits(longer)
  {
    hide WithinLimits, TotalLength;
    var record := FileIdentity(path, |bytes|, sha256(bytes));
    LimitsSnoc(records, record);
    TotalSnoc(records, record);
    longer, newTotal := records + [record], total + |bytes|;
    ok := |records| < MAX_FILES && |bytes| <= MAX_FILE_BYTES && newTotal <= MAX_TOTAL_BYTES;
  }

  /** Read one directory: record its files and push its subdirectories. */
  method ReadDirectory(item: Pending, below: seq<Pending>, initial: seq<FileIdentity>, initialTotal: nat,
                       sha256: string -> string)
    returns (ok: bool, stack: seq<Pending>, records: seq<FileIdentity>, total: nat)
    requires Accepts(initial) && initialTotal == TotalLength(initial) && item.depth <= MAX_DEPTH
    ensures ok <==> Accepts(initial + Files(item.prefix, item.listing, sha256))
    ensures ok ==> records == initial + Files(item.prefix, item.listing, sha256) && total == TotalLength(records)
    ensures ok ==> PendingWalk(stack, sha256) == Subs(item.prefix, item.listing, sha256) + PendingWalk(below, sha256)
    ensures ok ==> (AllShallow(stack) <==> AllShallow(below) && Shallow(item))
    ensures ok ==> PendingSize(stack) < PendingSize(below) + Size(item.listing)
  {
    hide Accepts, TotalLength, Slashed, Utf8Length, AllShallow, PendingWalk, PendingSize, Walk, WithinLimits;
    stack, records, total := below, initial, initialTotal;
    var cursor := item.listing;
    while cursor != End
      invariant Accepts(records) && total == TotalLength(records)
      invariant records + Files(item.prefix, cursor, sha256) == initial + Files(item.prefix, item.listing, sha256)
      invariant Subs(item.prefix, cursor, sha256) + PendingWalk(stack, sha256)
             == Subs(item.prefix, item.listing, sha256) + PendingWalk(below, sha256)
      invariant AllShallow(stack) && item.depth + Depth(cursor) <= MAX_DEPTH <==> AllShallow(below) && Shallow(item)
      invariant PendingSize(stack) + Size(cursor) <= PendingSize(below) + Size(item.listing)
      decreases cursor
    {
      match cursor {
        case FileThen(name, bytes, rest) =>
          var path := Slashed(item.prefix + name);
          var record := FileRecord(item.prefix, name, bytes, sha256);
          assert records + ([record] + Files(item.prefix, rest, sha256))
              == (records + [record]) + Files(item.prefix, rest, sha256);
          AcceptsSnoc(records, record);
          LimitsSnoc(records, record);
          AcceptsLimits(records);
          if Utf8Length(path) > MAX_RELATIVE_BYTES {
            PrefixRefused(records + [record], Files(item.prefix, rest, sha256));
            return false, stack, records, total;
          }
          var hashed, longer, newTotal := HashFile(path, bytes, records, total, sha256);
          if !hashed {
            PrefixRefused(records + [record], Files(item.prefix, rest, sha256));
            return false, stack, records, total;
          }
          records, total := longer, newTotal;
          cursor := rest;
        case DirThen(name, inner, rest) =>
          var child := Pending(Inside(item.prefix, name), inner, item.depth + 1);
          PendingPush(stack, child, sha256);
          stack := stack + [child];
          cursor := rest;
      }
    }
    assert records + [] == records && [] + PendingWalk(stack, sha256) == PendingWalk(stack, sha256);
    return true, stack, records, total;
  }

  lemma AcceptsLimits(files: seq<FileIdentity>)
    ensures Accepts(files) ==> WithinLimits(files)
  {
  }

  lemma PrefixRefused(a: seq<FileIdentity>, b: seq<FileIdentity>)
    requires !Accepts(a)
    ensures !Accepts(a + b)
  {
    hide Accepts;
    if Accepts(a + b) {
      AcceptsPrefix(a, b);
    }
  }

  /** The directory case of `content_tree_identity`: pop a directory, read it, until none
      is left; then sort. */
  method WalkTree(listing: Listing, sha256: string -> string) returns (tree: Option<TreeIdentity>)
    ensures tree == DirectoryIdentity(listing, sha256)
  {
    hide Accepts, TotalLength, AllShallow, PendingWalk, PendingSize, Walk, SortFiles;
    var root := Pending("", listing, 0);
    var stack: seq<Pending> := [root];
    var records: seq<FileIdentity> := [];
    var total := 0;
    NothingWalked(root, sha256);
    while stack != []
      invariant Accepts(records) && total == TotalLength(records)
      invariant records + PendingWalk(stack, sha256) == Walk("", listing, sha256)
      invariant AllShallow(stack) <==> Depth(listing) <= MAX_DEPTH
      decreases PendingSize(stack)
    {
      var item, below := stack[|stack| - 1], stack[..|stack| - 1];
      assert stack == below + [item];
      PendingPush(below, item, sha256);
      if item.depth > MAX_DEPTH {
        return None;
      }
      var files := Files(item.prefix, item.listing, sha256);
      var subs := Subs(item.prefix, item.listing, sha256);
      WalkParts(item, records, PendingWalk(below, sha256), sha256);
      var ok, newStack, newRecords, newTotal := ReadDirectory(item, below, records, total, sha256);
      if !ok {
        PrefixRefused(records + files, subs + PendingWalk(below, sha256));
        return None;
      }
      stack, records, total := newStack, newRecords, newTotal;
    }
    NothingPending(sha256);
    assert records + [] == records;
    return Some(TreeIdentity(SortFiles(records), total));
  }

  lemma NothingWalked(root: Pending, sha256: string -> string)
    ensures Accepts([]) && TotalLength([]) == 0
    ensures [] + PendingWalk([root], sha256) == Walk(root.prefix, root.listing, sha256)
    ensures AllShallow([root]) <==> Shallow(root)
  {
    PendingPush([], root, sha256);
    assert [] + [root] == [root];
    assert Walk(root.prefix, root.listing, sha256) + [] == Walk(root.prefix, root.listing, sha256);
    assert [root][0] == root;
  }

  lemma NothingPending(sha256: string -> string)
    ensures PendingWalk([], sha256) == [] && AllShallow([])
  {
  }

  lemma WalkParts(item: Pending, records: seq<FileIdentity>, rest: seq<FileIdentity>, sha256: string -> string)
    ensures records + (Walk(item.prefix, item.listing, sha256) + rest)
         == (records + Files(item.prefix, item.listing, sha256)) + (Subs(item.prefix, item.listing, sha256) + rest)
  {
  }
}
