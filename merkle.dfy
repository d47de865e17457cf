/**
 * The Merkle tree over an RO-Crate's local files (src/fairscape_cli/utils/merkle.py): building the
 * tree from sorted leaves, the order the leaves are sorted in, and which `contentUrl` values name
 * a local file. SHA-256 itself is a parameter: `concat` stands for `sha256_concat`.
 */
module Merkle {
  import opened Wrappers
  import opened Text
  import opened Json

  /** `sha256(b"").hexdigest()`. */
  const EmptyHash: string := "e3b0c44298fc1c149afbf4c8996fb92427ae41e4649b934ca495991b7852b855"

  const Algorithm: string := "SHA-256"

  /** A leaf as `generate_merkle_tree` collects it: `{"contentUrl": url, "sha256": hash}`. */
  datatype MerkleLeaf = MerkleLeaf(contentUrl: string, sha256: string)

  /** An entry of the tree's `leaves` list. */
  datatype IndexedLeaf = IndexedLeaf(index: nat, contentUrl: string, sha256: string)

  /** The dict `build_merkle_tree` returns. */
  datatype MerkleTree = MerkleTree(
    algorithm: string,
    rootHash: string,
    leafCount: nat,
    leaves: seq<IndexedLeaf>,
    levels: seq<seq<string>>)

  /** A level with an odd number of hashes gets its last hash repeated. */
  function Padded(level: seq<string>): (p: seq<string>)
    requires level != []
    ensures |p| == if |level| % 2 == 0 then |level| else |level| + 1
    ensures |p| % 2 == 0 && p[..|level|] == level
  {
    if |level| % 2 != 0 then level + [level[|level| - 1]] else level
  }

  /** The next level up: the concat-hash of each pair. */
  function Parents(level: seq<string>, concat: (string, string) -> string): (up: seq<string>)
    requires |level| % 2 == 0
    ensures |up| == |level| / 2
  {
    seq(|level| / 2, i requires 0 <= i < |level| / 2 => concat(level[2 * i], level[2 * i + 1]))
  }

  /** The `levels` list for a level of two or more hashes, padded levels first, the root level last. */
  function Levels(level: seq<string>, concat: (string, string) -> string): (lv: seq<seq<string>>)
    requires level != []
    ensures lv != [] && |lv[|lv| - 1]| == 1
    decreases |level|
  {
    if |level| == 1 then [level]
    else [Padded(level)] + Levels(Parents(Padded(level), concat), concat)
  }

  function Hashes(leaves: seq<MerkleLeaf>): (hs: seq<string>)
    ensures |hs| == |leaves| && forall i :: 0 <= i < |leaves| ==> hs[i] == leaves[i].sha256
  {
    seq(|leaves|, i requires 0 <= i < |leaves| => leaves[i].sha256)
  }

  function Indexed(leaves: seq<MerkleLeaf>): (ls: seq<IndexedLeaf>)
    ensures |ls| == |leaves|
    ensures forall i :: 0 <= i < |leaves| ==> ls[i] == IndexedLeaf(i, leaves[i].contentUrl, leaves[i].sha256)
  {
    seq(|leaves|, i requires 0 <= i < |leaves| => IndexedLeaf(i, leaves[i].contentUrl, leaves[i].sha256))
  }

  /** The tree `build_merkle_tree(leaves)` returns. */
  function TreeOf(leaves: seq<MerkleLeaf>, concat: (string, string) -> string): MerkleTree
  {
    if leaves == [] then MerkleTree(Algorithm, EmptyHash, 0, [], [[EmptyHash]])
    else if |leaves| == 1 then
      MerkleTree(Algorithm, leaves[0].sha256, 1, Indexed(leaves), [[leaves[0].sha256]])
    else
      var lv := Levels(Hashes(leaves), concat);
      MerkleTree(Algorithm, lv[|lv| - 1][0], |leaves|, Indexed(leaves), lv)
  }

  /**
   * `above` is the level stored over `below`: the pairwise concat-hashes of `below`, padded when
   * the loop went on to pair them in turn.
   */
  predicate StoredAbove(below: seq<string>, above: seq<string>, concat: (string, string) -> string)
  {
    |below| >= 2 && |below| % 2 == 0 &&
    (above == Parents(below, concat) || above == Padded(Parents(below, concat)))
  }

  /**
   * Each level is stored over the one before it, every level but the last has an even number of
   * hashes, the first level is the input, padded, and the last level is the root alone.
   */
  lemma {:induction false} LevelsStructure(level: seq<string>, concat: (string, string) -> string)
    requires level != []
    ensures var lv := Levels(level, concat);
      && |lv[|lv| - 1]| == 1
      && (|level| > 1 ==> lv[0] == Padded(level))
      && (forall i :: 0 <= i < |lv| - 1 ==> StoredAbove(lv[i], lv[i + 1], concat))
    decreases |level|
  {
    if |level| > 1 {
      var up := Parents(Padded(level), concat);
      LevelsStructure(up, concat);
      var lv := Levels(level, concat);
      var rest := Levels(up, concat);
      assert lv == [Padded(level)] + rest;
      assert rest[0] == up || rest[0] == Padded(up);
      forall i | 0 <= i < |lv| - 1
        ensures StoredAbove(lv[i], lv[i + 1], concat)
      {
        if i > 0 {
          assert lv[i] == rest[i - 1] && lv[i + 1] == rest[i];
        }
      }
    }
  }

  /** Properties of the tree that hold for every input, as the function's callers rely on them. */
  lemma TreeFacts(leaves: seq<MerkleLeaf>, concat: (string, string) -> string)
    ensures var t := TreeOf(leaves, concat);
      && t.algorithm == Algorithm
      && t.leafCount == |leaves|
      && (forall i :: 0 <= i < |t.leaves| ==> t.leaves[i].index == i)
      && |t.leaves| == |leaves|
      && t.levels != [] && t.levels[|t.levels| - 1] == [t.rootHash]
      && (leaves == [] ==> t.rootHash == EmptyHash && t.levels == [[EmptyHash]])
      && (|leaves| == 1 ==> t.rootHash == leaves[0].sha256 && t.levels == [[leaves[0].sha256]])
  {
    if |leaves| > 1 {
      LevelsStructure(Hashes(leaves), concat);
    }
  }

  /** The single-leaf special case agrees with the general construction. */
  lemma SingleLeafIsGeneral(leaf: MerkleLeaf, concat: (string, string) -> string)
    ensures Levels(Hashes([leaf]), concat) == TreeOf([leaf], concat).levels
  {
    assert Hashes([leaf]) == [leaf.sha256];
  }

  /** The first stored level keeps the duplicate an odd number of leaves gets. */
  lemma OddLevelStoresDuplicate(leaves: seq<MerkleLeaf>, concat: (string, string) -> string)
    requires |leaves| > 1 && |leaves| % 2 == 1
    ensures TreeOf(leaves, concat).levels[0] == Hashes(leaves) + [leaves[|leaves| - 1].sha256]
  {
  }

  /** Three leaves: the third is paired with itself, then the two parents give the root. */
  lemma ThreeLeaves(a: MerkleLeaf, b: MerkleLeaf, c: MerkleLeaf, concat: (string, string) -> string)
    ensures TreeOf([a, b, c], concat).rootHash
         == concat(concat(a.sha256, b.sha256), concat(c.sha256, c.sha256))
    ensures |TreeOf([a, b, c], concat).levels| == 3
  {
    var hs := [a.sha256, b.sha256, c.sha256];
    assert Hashes([a, b, c]) == hs;
    var p := Padded(hs);
    assert p == [a.sha256, b.sha256, c.sha256, c.sha256];
    var up := Parents(p, concat);
    assert up == [concat(a.sha256, b.sha256), concat(c.sha256, c.sha256)];
    assert Padded(up) == up;
    var top := Parents(up, concat);
    assert top == [concat(concat(a.sha256, b.sha256), concat(c.sha256, c.sha256))];
    assert Levels(up, concat) == [up] + Levels(top, concat);
  }

  /** The inner `for i in range(0, len(current_level), 2)` loop. */
  method NextLevel(current: seq<string>, concat: (string, string) -> string) returns (next: seq<string>)
    requires |current| % 2 == 0
    ensures next == Parents(current, concat)
  {
    next := [];
    var i := 0;
    while i < |current|
      invariant 0 <= i <= |current| && i % 2 == 0
      invariant next == Parents(current, concat)[..i / 2]
    {
      next := next + [concat(current[i], current[i + 1])];
      i := i + 2;
    }
  }

  /** The `indexed_leaves` comprehension. */
  method IndexLeaves(leaves: seq<MerkleLeaf>) returns (indexed: seq<IndexedLeaf>)
    ensures indexed == Indexed(leaves)
  {
    indexed := [];
    for i := 0 to |leaves|
      invariant indexed == Indexed(leaves[..i])
    {
      indexed := indexed + [IndexedLeaf(i, leaves[i].contentUrl, leaves[i].sha256)];
    }
    assert leaves[..|leaves|] == leaves;
  }

  /** One round of the loop moves the padded level from the pending levels to the stored ones. */
  lemma LevelsStep(done: seq<seq<string>>, c: seq<string>, next: seq<string>, all: seq<seq<string>>,
                   concat: (string, string) -> string)
    requires |c| > 1 && next == Parents(Padded(c), concat)
    requires done + Levels(c, concat) == all
    ensures (done + [Padded(c)]) + Levels(next, concat) == all
  {
    assert Levels(c, concat) == [Padded(c)] + Levels(next, concat);
  }

  /** The `while len(current_level) > 1` loop: the levels above a level of two or more hashes. */
  method BuildLevels(hashes: seq<string>, concat: (string, string) -> string) returns (levels: seq<seq<string>>, root: string)
    requires |hashes| > 1
    ensures levels == Levels(hashes, concat) && root == levels[|levels| - 1][0]
  {
    var current := hashes;
    levels := [current];
    ghost var done: seq<seq<string>> := [];
    while |current| > 1
      invariant current != []
      invariant levels == done + [current]
      invariant done + Levels(current, concat) == Levels(hashes, concat)
      decreases |current|
    {
      ghost var c := current;
      if |current| % 2 != 0 {
        current := current + [current[|current| - 1]];
        assert levels[..|levels| - 1] == done;
        levels := levels[..|levels| - 1] + [current];
      }
      assert current == Padded(c);
      var next := NextLevel(current, concat);
      LevelsStep(done, c, next, Levels(hashes, concat), concat);
      done := done + [current];
      current := next;
      levels := levels + [current];
    }
    assert Levels(current, concat) == [current];
    root := current[0];
  }

  /** `build_merkle_tree`. */
  method BuildMerkleTree(leaves: seq<MerkleLeaf>, concat: (string, string) -> string) returns (tree: MerkleTree)
    ensures tree == TreeOf(leaves, concat)
  {
    if leaves == [] {
      return MerkleTree(Algorithm, EmptyHash, 0, [], [[EmptyHash]]);
    }
    var indexed := IndexLeaves(leaves);
    if |leaves| == 1 {
      return MerkleTree(Algorithm, leaves[0].sha256, 1, indexed, [[leaves[0].sha256]]);
    }
    var levels, root := BuildLevels(Hashes(leaves), concat);
    tree := MerkleTree(Algorithm, root, |leaves|, indexed, levels);
  }

  /** Python's `a <= b` on strings: code point by code point, a prefix first. */
  predicate StrLe(a: string, b: string)
    decreases |a|
  {
    a == [] || (b != [] && (a[0] < b[0] || (a[0] == b[0] && StrLe(a[1..], b[1..]))))
  }

  lemma {:induction false} StrLeTotal(a: string, b: string)
    ensures StrLe(a, b) || StrLe(b, a)
    decreases |a|
  {
    if a != [] && b != [] && a[0] == b[0] {
      StrLeTotal(a[1..], b[1..]);
    }
  }

  lemma {:induction false} StrLeAntisymmetric(a: string, b: string)
    requires StrLe(a, b) && StrLe(b, a)
    ensures a == b
    decreases |a|
  {
    if a != [] {
      StrLeAntisymmetric(a[1..], b[1..]);
      assert a == [a[0]] + a[1..] && b == [b[0]] + b[1..];
    }
  }

  lemma {:induction false} StrLeTransitive(a: string, b: string, c: string)
    requires StrLe(a, b) && StrLe(b, c)
    ensures StrLe(a, c)
    decreases |a|
  {
    if a != [] && a[0] == b[0] && b[0] == c[0] {
      StrLeTransitive(a[1..], b[1..], c[1..]);
    }
  }

  lemma StrLeReflexive(a: string)
    ensures StrLe(a, a)
    decreases |a|
  {
    if a != [] {
      StrLeReflexive(a[1..]);
    }
  }

  /** Ordered by `contentUrl`. */
  predicate SortedByUrl(xs: seq<MerkleLeaf>)
  {
    forall i, j :: 0 <= i < j < |xs| ==> StrLe(xs[i].contentUrl, xs[j].contentUrl)
  }

  /** Every leaf of `xs` has a URL at or above `u`. */
  predicate UrlsFrom(u: string, xs: seq<MerkleLeaf>)
  {
    forall i :: 0 <= i < |xs| ==> StrLe(u, xs[i].contentUrl)
  }

  lemma ConsSorted(h: MerkleLeaf, t: seq<MerkleLeaf>)
    requires UrlsFrom(h.contentUrl, t) && SortedByUrl(t)
    ensures SortedByUrl([h] + t)
  {
  }

  /** Places `x` before the first leaf whose URL is not below it. */
  function Insert(x: MerkleLeaf, xs: seq<MerkleLeaf>): (r: seq<MerkleLeaf>)
    ensures |r| == |xs| + 1
  {
    if xs == [] then [x]
    else if StrLe(x.contentUrl, xs[0].contentUrl) then [x] + xs
    else [xs[0]] + Insert(x, xs[1..])
  }

  lemma {:induction false} InsertPermutes(x: MerkleLeaf, xs: seq<MerkleLeaf>)
    ensures multiset(Insert(x, xs)) == multiset(xs) + multiset{x}
  {
    if xs != [] && !StrLe(x.contentUrl, xs[0].contentUrl) {
      InsertPermutes(x, xs[1..]);
      assert xs == [xs[0]] + xs[1..];
    }
  }

  /** A bound that holds for `x` and for every leaf of `xs` holds for their insertion. */
  lemma {:induction false} InsertUrlsFrom(u: string, x: MerkleLeaf, xs: seq<MerkleLeaf>)
    requires StrLe(u, x.contentUrl) && UrlsFrom(u, xs)
    ensures UrlsFrom(u, Insert(x, xs))
  {
    if xs != [] && !StrLe(x.contentUrl, xs[0].contentUrl) {
      InsertUrlsFrom(u, x, xs[1..]);
    }
  }

  lemma {:induction false} InsertSorted(x: MerkleLeaf, xs: seq<MerkleLeaf>)
    requires SortedByUrl(xs)
    ensures SortedByUrl(Insert(x, xs))
  {
    if xs == [] {
    } else if StrLe(x.contentUrl, xs[0].contentUrl) {
      forall i | 0 <= i < |xs| ensures StrLe(x.contentUrl, xs[i].contentUrl) {
        if i > 0 {
          StrLeTransitive(x.contentUrl, xs[0].contentUrl, xs[i].contentUrl);
        }
      }
      ConsSorted(x, xs);
    } else {
      InsertSorted(x, xs[1..]);
      StrLeTotal(x.contentUrl, xs[0].contentUrl);
      assert UrlsFrom(xs[0].contentUrl, xs[1..]);
      InsertUrlsFrom(xs[0].contentUrl, x, xs[1..]);
      ConsSorted(xs[0], Insert(x, xs[1..]));
    }
  }

  /**
   * `leaves.sort(key=lambda x: x["contentUrl"])`: a stable sort by URL, as an insertion sort
   * that puts each leaf before the equal-URL leaves that came after it.
   */
  function SortByUrl(xs: seq<MerkleLeaf>): (r: seq<MerkleLeaf>)
    ensures |r| == |xs|
  {
    if xs == [] then [] else Insert(xs[0], SortByUrl(xs[1..]))
  }

  /** The sort step orders the leaves by URL and keeps every leaf, the same number of times. */
  lemma {:induction false} SortByUrlSpec(xs: seq<MerkleLeaf>)
    ensures SortedByUrl(SortByUrl(xs)) && multiset(SortByUrl(xs)) == multiset(xs)
  {
    if xs != [] {
      SortByUrlSpec(xs[1..]);
      InsertSorted(xs[0], SortByUrl(xs[1..]));
      InsertPermutes(xs[0], SortByUrl(xs[1..]));
      assert xs == [xs[0]] + xs[1..];
    }
  }

  /** Two leaves with the same URL are the same leaf: the same file hashes the same. */
  predicate UrlDeterminesLeaf(xs: multiset<MerkleLeaf>)
  {
    forall a, b :: a in xs && b in xs && a.contentUrl == b.contentUrl ==> a == b
  }

  /** Under the same leaves, two sorted orderings start with the same leaf. */
  lemma SortedSameHead(a: seq<MerkleLeaf>, b: seq<MerkleLeaf>)
    requires a != [] && b != []
    requires SortedByUrl(a) && SortedByUrl(b) && multiset(a) == multiset(b)
    requires UrlDeterminesLeaf(multiset(a))
    ensures a[0] == b[0]
  {
    assert a[0] in multiset(b);
    var j :| 0 <= j < |b| && b[j] == a[0];
    assert b[0] in multiset(a);
    var i :| 0 <= i < |a| && a[i] == b[0];
    StrLeReflexive(a[0].contentUrl);
    assert StrLe(a[0].contentUrl, b[0].contentUrl) by {
      if i > 0 { assert StrLe(a[0].contentUrl, a[i].contentUrl); }
    }
    assert StrLe(b[0].contentUrl, a[0].contentUrl) by {
      if j > 0 { assert StrLe(b[0].contentUrl, b[j].contentUrl); }
    }
    StrLeAntisymmetric(a[0].contentUrl, b[0].contentUrl);
  }

  /** An ordering of leaves where URLs determine leaves still has that property after its head. */
  lemma UrlDeterminesTail(a: seq<MerkleLeaf>)
    requires a != [] && UrlDeterminesLeaf(multiset(a))
    ensures UrlDeterminesLeaf(multiset(a[1..]))
  {
    assert a == [a[0]] + a[1..];
    assert multiset(a[1..]) <= multiset(a);
  }

  lemma TailsSameLeaves(a: seq<MerkleLeaf>, b: seq<MerkleLeaf>)
    requires a != [] && b != [] && a[0] == b[0] && multiset(a) == multiset(b)
    ensures multiset(a[1..]) == multiset(b[1..])
  {
    assert a == [a[0]] + a[1..] && b == [b[0]] + b[1..];
    assert multiset(a) == multiset{a[0]} + multiset(a[1..]);
    assert multiset(b) == multiset{b[0]} + multiset(b[1..]);
    assert multiset(a[1..]) == multiset(a) - multiset{a[0]};
    assert multiset(b[1..]) == multiset(b) - multiset{b[0]};
  }

  /** Two sorted orderings of the same leaves, when URLs determine the leaves, are the same sequence. */
  lemma {:induction false} SortedUnique(a: seq<MerkleLeaf>, b: seq<MerkleLeaf>)
    requires SortedByUrl(a) && SortedByUrl(b) && multiset(a) == multiset(b)
    requires UrlDeterminesLeaf(multiset(a))
    ensures a == b
    decreases |a|
  {
    SameLeavesSameLength(a, b);
    if a != [] {
      SortedSameHead(a, b);
      TailsSameLeaves(a, b);
      UrlDeterminesTail(a);
      SortedTail(a);
      SortedTail(b);
      SortedUnique(a[1..], b[1..]);
      SameHeadSameTail(a, b);
    }
  }

  lemma SameLeavesSameLength(a: seq<MerkleLeaf>, b: seq<MerkleLeaf>)
    requires multiset(a) == multiset(b)
    ensures |a| == |b|
  {
    assert |multiset(a)| == |multiset(b)|;
  }

  lemma SortedTail(a: seq<MerkleLeaf>)
    requires a != [] && SortedByUrl(a)
    ensures SortedByUrl(a[1..])
  {
  }

  lemma SameHeadSameTail(a: seq<MerkleLeaf>, b: seq<MerkleLeaf>)
    requires a != [] && b != [] && a[0] == b[0] && a[1..] == b[1..]
    ensures a == b
  {
    assert a == [a[0]] + a[1..] && b == [b[0]] + b[1..];
  }

  /**
   * Sorting makes the tree independent of the order the leaves were found in the `@graph`: two
   * arrangements of the same leaves, where one URL names one file, give the same tree.
   */
  lemma RootIndependentOfGraphOrder(xs: seq<MerkleLeaf>, ys: seq<MerkleLeaf>, concat: (string, string) -> string)
    requires multiset(xs) == multiset(ys) && UrlDeterminesLeaf(multiset(xs))
    ensures TreeOf(SortByUrl(xs), concat) == TreeOf(SortByUrl(ys), concat)
  {
    SortByUrlSpec(xs);
    SortByUrlSpec(ys);
    SortedUnique(SortByUrl(xs), SortByUrl(ys));
  }

  /** `crate_dir / rel`: an absolute `rel` replaces the directory. */
  function JoinPath(dir: string, rel: string): string
  {
    if StartsWith(rel, "/") then rel else dir + "/" + rel
  }

  /**
   * The path a stripped `contentUrl` names relative to the crate, or `None` for an http(s)
   * URL, "embargoed" in any case, or the empty string. A `file:///` or else a `file://`
   * prefix is removed.
   */
  function LocalPath(stripped: string): (r: Option<string>)
    ensures r.None? <==> StartsWith(stripped, "http://") || StartsWith(stripped, "https://")
                         || LowerAscii(stripped) == "embargoed" || stripped == []
  {
    if StartsWith(stripped, "http://") || StartsWith(stripped, "https://") then None
    else if LowerAscii(stripped) == "embargoed" || LowerAscii(stripped) == "" then None
    else if StartsWith(stripped, "file:///") then Some(stripped[|"file:///"|..])
    else if StartsWith(stripped, "file://") then Some(stripped[|"file://"|..])
    else Some(stripped)
  }

  /**
   * `resolve_content_url`: the local file a `contentUrl` names, or `None` for a non-string,
   * an empty string, an http(s) URL, "embargoed" in any case, or a path that is not a file.
   * `isFile` stands for `Path.is_file`.
   */
  function ResolveContentUrl(url: Json, crateDir: string, isFile: string -> bool): (r: Option<string>)
    ensures r.Some? ==> isFile(r.value)
    ensures r.Some? ==> url.JStr? && LocalPath(Trim(url.s, IsPySpace)).Some?
    ensures r.Some? <==> url.JStr? && LocalPath(Trim(url.s, IsPySpace)).Some?
                         && isFile(JoinPath(crateDir, LocalPath(Trim(url.s, IsPySpace)).value))
    ensures r.Some? ==> r.value == JoinPath(crateDir, LocalPath(Trim(url.s, IsPySpace)).value)
  {
    if !Truthy(url) || !url.JStr? then None else ResolveStripped(Trim(url.s, IsPySpace), crateDir, isFile)
  }

  /** The part of `resolve_content_url` after `strip()`. */
  function ResolveStripped(stripped: string, crateDir: string, isFile: string -> bool): (r: Option<string>)
    ensures r.Some? ==> isFile(r.value) && LocalPath(stripped).Some?
    ensures r.Some? <==> LocalPath(stripped).Some? && isFile(JoinPath(crateDir, LocalPath(stripped).value))
    ensures r.Some? ==> r.value == JoinPath(crateDir, LocalPath(stripped).value)
  {
    match LocalPath(stripped)
    case None => None
    case Some(rel) =>
      var resolved := JoinPath(crateDir, rel);
      if isFile(resolved) then Some(resolved) else None
  }

  /** Nothing but a non-empty string can name a local file. */
  lemma NonStringsNotLocal(url: Json, crateDir: string, isFile: string -> bool)
    requires !url.JStr? || url.s == []
    ensures ResolveContentUrl(url, crateDir, isFile) == None
  {
  }

  /**
   * An all-whitespace string, an http(s) URL and "embargoed" in any case (each after
   * `strip()`) never name a local file.
   */
  lemma SkippedUrlsNotLocal(s: string, crateDir: string, isFile: string -> bool)
    requires var t := Trim(s, IsPySpace);
      t == [] || StartsWith(t, "http://") || StartsWith(t, "https://") || LowerAscii(t) == "embargoed"
    ensures ResolveContentUrl(JStr(s), crateDir, isFile) == None
  {
  }

  /** A string that starts with 'f' is neither a web URL nor "embargoed". */
  lemma NotSkipped(t: string)
    requires t != [] && t[0] == 'f'
    ensures !StartsWith(t, "http://") && !StartsWith(t, "https://") && LowerAscii(t) != "embargoed"
  {
    assert "http://"[0] == 'h' && "https://"[0] == 'h' && "embargoed"[0] == 'e';
    assert LowerAscii(t)[0] == 'f';
  }

  /** A relative path that is not a web URL, not "embargoed" and has no `file://` is used as it is. */
  lemma BarePath(rel: string)
    requires rel != [] && !StartsWith(rel, "http://") && !StartsWith(rel, "https://") && !StartsWith(rel, "file://")
    requires LowerAscii(rel) != "embargoed"
    ensures LocalPath(rel) == Some(rel)
  {
    assert !StartsWith(rel, "file:///") by {
      if |rel| >= 8 {
        assert rel[..8][..7] == rel[..7];
        assert "file:///"[..7] == "file://";
      }
    }
  }

  /** `file:///` is removed whole, so `file:///data/a.csv` names `data/a.csv` inside the crate. */
  lemma TripleSlashRemoved(rel: string)
    ensures LocalPath("file:///" + rel) == Some(rel)
  {
    var p3 := "file:///" + rel;
    NotSkipped(p3);
    assert p3[..8] == "file:///" && p3[8..] == rel;
  }

  /** `file://` is removed when no third '/' follows it. */
  lemma DoubleSlashRemoved(rel: string)
    requires rel != [] && rel[0] != '/'
    ensures LocalPath("file://" + rel) == Some(rel)
  {
    var p2 := "file://" + rel;
    NotSkipped(p2);
    assert !StartsWith(p2, "file:///") by {
      assert p2[7] == rel[0];
      assert "file:///"[7] == '/';
    }
    assert p2[..7] == "file://" && p2[7..] == rel;
  }

  /** Applied to whole `contentUrl`s: a clean relative path resolves the same with or without `file://` or `file:///`. */
  lemma FileUrlForms(rel: string, crateDir: string, isFile: string -> bool)
    requires rel != [] && rel[0] != '/' && !IsPySpace(rel[0]) && !IsPySpace(rel[|rel| - 1])
    requires !StartsWith(rel, "http://") && !StartsWith(rel, "https://") && !StartsWith(rel, "file://")
    requires LowerAscii(rel) != "embargoed"
    ensures ResolveContentUrl(JStr("file:///" + rel), crateDir, isFile) == ResolveContentUrl(JStr(rel), crateDir, isFile)
    ensures ResolveContentUrl(JStr("file://" + rel), crateDir, isFile) == ResolveContentUrl(JStr(rel), crateDir, isFile)
  {
    var p3, p2 := "file:///" + rel, "file://" + rel;
    BarePath(rel);
    TrimKeeps(rel);
    ResolveOfStripped(rel, crateDir, isFile);
    StrippedFileUrl(p3, rel);
    TripleSlashRemoved(rel);
    ResolveOfStripped(p3, crateDir, isFile);
    StrippedFileUrl(p2, rel);
    DoubleSlashRemoved(rel);
    ResolveOfStripped(p2, crateDir, isFile);
  }

  lemma ResolveOfStripped(s: string, crateDir: string, isFile: string -> bool)
    requires s != [] && Trim(s, IsPySpace) == s
    ensures ResolveContentUrl(JStr(s), crateDir, isFile) == ResolveStripped(s, crateDir, isFile)
  {
  }

  /** `file:` + a path without trailing whitespace is its own strip. */
  lemma StrippedFileUrl(p: string, rel: string)
    requires rel != [] && !IsPySpace(rel[|rel| - 1])
    requires p == "file:///" + rel || p == "file://" + rel
    ensures Trim(p, IsPySpace) == p
  {
    assert p[0] == 'f' && p[|p| - 1] == rel[|rel| - 1];
    TrimKeeps(p);
  }

  /** A string with no whitespace at either end is its own strip. */
  lemma TrimKeeps(s: string)
    requires s != [] && !IsPySpace(s[0]) && !IsPySpace(s[|s| - 1])
    ensures Trim(s, IsPySpace) == s
  {
    assert TrimStart(s, IsPySpace) == s;
    assert TrimEnd(s, IsPySpace) == s;
  }
}
