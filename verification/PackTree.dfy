/**
 * The byte stream a pack tree is hashed over: for each signed file, in path order,
 * its path, a NUL, the content length in eight bytes, and the content.
 */
module PackTree {
  import opened Wrappers
  import opened Ordering

  type byte = b: int | 0 <= b < 256

  const TWO64 := 0x1_0000_0000_0000_0000

  /** File paths hold no NUL byte; a length has to fit in eight bytes. */
  type Path = p: seq<byte> | 0 !in p

  type Content = c: seq<byte> | |c| < TWO64

  datatype Entry = Entry(path: Path, content: Content)

  /** A number in `k` bytes, the most significant first. */
  function ToBytes(n: nat, k: nat): (r: seq<byte>)
    ensures |r| == k
  {
    if k == 0 then [] else ToBytes(n / 256, k - 1) + [n % 256]
  }

  function FromBytes(bs: seq<byte>): nat {
    if bs == [] then 0 else FromBytes(bs[..|bs| - 1]) * 256 + bs[|bs| - 1]
  }

  function Power256(k: nat): nat {
    if k == 0 then 1 else 256 * Power256(k - 1)
  }

  lemma {:induction false} BytesRoundTrip(n: nat, k: nat)
    requires n < Power256(k)
    ensures FromBytes(ToBytes(n, k)) == n
  {
    if k > 0 {
      BytesRoundTrip(n / 256, k - 1);
      assert ToBytes(n, k)[..k - 1] == ToBytes(n / 256, k - 1);
    }
  }

  lemma DivideTwice(n: nat, a: nat)
    requires a > 0
    ensures n / 256 / a == n / (256 * a)
  {
    var q, r := n / 256, n % 256;
    var p, t := q / a, q % a;
    assert n == 256 * (a * p + t) + r == (256 * a) * p + (256 * t + r);
    QuotientIs(n, 256 * a, p, 256 * t + r);
  }

  lemma QuotientIs(n: nat, d: nat, p: nat, r: nat)
    requires n == d * p + r && r < d
    ensures n / d == p
  {
    var q, m := n / d, n % d;
    assert n == d * q + m && d * p - d * q == m - r;
    if p > q { AtLeastOne(d, p - q); }
    if p < q { AtLeastOne(d, q - p); }
  }

  lemma AtLeastOne(d: nat, k: nat)
    requires k > 0
    ensures d * k >= d
  {
    assert d * k == d + d * (k - 1);
  }

  /** The most significant byte comes first. */
  lemma {:induction false} BigEndian(n: nat, k: nat, i: nat)
    requires i < k
    ensures Power256(k - 1 - i) > 0 && ToBytes(n, k)[i] == n / Power256(k - 1 - i) % 256
  {
    if i == k - 1 {
      assert Power256(0) == 1 && n / 1 == n;
    } else {
      BigEndian(n / 256, k - 1, i);
      DivideTwice(n, Power256(k - 2 - i));
    }
  }

  lemma {:induction false} FromBytesInjective(a: seq<byte>, b: seq<byte>)
    requires |a| == |b| && FromBytes(a) == FromBytes(b)
    ensures a == b
  {
    if a != [] {
      var n := |a| - 1;
      FromBytesInjective(a[..n], b[..n]);
      assert a == a[..n] + [a[n]] && b == b[..n] + [b[n]];
    }
  }

  lemma LengthFits(c: Content)
    ensures FromBytes(ToBytes(|c|, 8)) == |c|
  {
    assert Power256(8) == TWO64 by {
      assert Power256(4) == 0x1_0000_0000;
    }
    BytesRoundTrip(|c|, 8);
  }

  function Frame(e: Entry): seq<byte> {
    e.path + [0] + ToBytes(|e.content|, 8) + e.content
  }

  function Stream(es: seq<Entry>): seq<byte> {
    if es == [] then [] else Frame(es[0]) + Stream(es[1..])
  }

  // ------------------------------------------------------------ reading it back

  function FirstNul(s: seq<byte>): (i: nat)
    ensures i <= |s| && 0 !in s[..i] && (i < |s| ==> s[i] == 0)
  {
    if s == [] || s[0] == 0 then 0
    else
      var i := 1 + FirstNul(s[1..]);
      assert s[..i] == [s[0]] + s[1..][..i - 1];
      i
  }

  /** One frame off the front, and the rest; None when the stream is cut short. */
  function ReadFrame(s: seq<byte>): (r: Option<(Entry, seq<byte>)>)
    ensures r.Some? ==> |r.value.1| < |s|
  {
    var i := FirstNul(s);
    if |s| < i + 9 then None
    else
      var n := FromBytes(s[i + 1..i + 9]);
      if n >= TWO64 || |s| < i + 9 + n then None
      else Some((Entry(s[..i], s[i + 9..i + 9 + n]), s[i + 9 + n..]))
  }

  function Parse(s: seq<byte>): Option<seq<Entry>>
    decreases |s|
  {
    if s == [] then Some([])
    else
      match ReadFrame(s)
      case None => None
      case Some((e, rest)) =>
        match Parse(rest)
        case None => None
        case Some(es) => Some([e] + es)
  }

  lemma {:induction false} FirstNulOfPath(p: Path, rest: seq<byte>)
    ensures FirstNul(p + [0] + rest) == |p|
  {
    var s := p + [0] + rest;
    assert s[|p|] == 0 && s[..|p|] == p;
    NulIsFirst(s, |p|);
  }

  lemma {:induction false} NulIsFirst(s: seq<byte>, i: nat)
    requires i < |s| && s[i] == 0 && 0 !in s[..i]
    ensures FirstNul(s) == i
  {
    if i > 0 {
      assert s[0] == s[..i][0];
      assert s[1..][..i - 1] == s[..i][1..];
      NulIsFirst(s[1..], i - 1);
    }
  }

  lemma ReadsOneFrame(e: Entry, rest: seq<byte>)
    ensures ReadFrame(Frame(e) + rest) == Some((e, rest))
  {
    var s := Frame(e) + rest;
    var size := ToBytes(|e.content|, 8);
    var i := |e.path|;
    FirstNulOfPath(e.path, size + e.content + rest);
    assert s == e.path + [0] + (size + e.content + rest);
    assert s[..i] == e.path;
    assert s[i + 1..i + 9] == size;
    LengthFits(e.content);
    assert s[i + 9..i + 9 + |e.content|] == e.content;
    assert s[i + 9 + |e.content|..] == rest;
  }

  /** The stream parses back to the exact list of entries. */
  lemma {:induction false} ParseInvertsStream(es: seq<Entry>)
    ensures Parse(Stream(es)) == Some(es)
  {
    if es != [] {
      ReadsOneFrame(es[0], Stream(es[1..]));
      ParseInvertsStream(es[1..]);
      assert es == [es[0]] + es[1..];
    }
  }

  lemma FrameParts(s: seq<byte>, i: nat, n: nat)
    requires i + 9 + n <= |s|
    ensures s == s[..i] + [s[i]] + s[i + 1..i + 9] + s[i + 9..i + 9 + n] + s[i + 9 + n..]
  {
    assert s[i..] == [s[i]] + s[i + 1..];
    assert s[i + 1..] == s[i + 1..i + 9] + s[i + 9..];
    assert s[i + 9..] == s[i + 9..i + 9 + n] + s[i + 9 + n..];
  }

  /** What a frame was read from is that frame and the rest. */
  lemma FrameInvertsRead(s: seq<byte>)
    requires ReadFrame(s).Some?
    ensures var (e, rest) := ReadFrame(s).value; s == Frame(e) + rest
  {
    var (e, rest) := ReadFrame(s).value;
    var i, n := FirstNul(s), |e.content|;
    LengthFits(e.content);
    FromBytesInjective(s[i + 1..i + 9], ToBytes(n, 8));
    FrameParts(s, i, n);
  }

  lemma StreamCons(e: Entry, es: seq<Entry>)
    ensures Stream([e] + es) == Frame(e) + Stream(es)
  {
    assert ([e] + es)[1..] == es;
  }

  /** Whatever parses is the stream of what it parses to. */
  lemma {:induction false} StreamInvertsParse(s: seq<byte>)
    ensures Parse(s).Some? ==> Stream(Parse(s).value) == s
    decreases |s|
  {
    if s != [] && ReadFrame(s).Some? {
      var (e, rest) := ReadFrame(s).value;
      StreamInvertsParse(rest);
      FrameInvertsRead(s);
      if Parse(rest).Some? { StreamCons(e, Parse(rest).value); }
    }
  }

  // --------------------------------------------------------------------- trees

  /** ".pub.pem" */
  const PUB_PEM: seq<byte> := [46, 112, 117, 98, 46, 112, 101, 109]

  /** "manifest.jwt" */
  const MANIFEST: seq<byte> := [109, 97, 110, 105, 102, 101, 115, 116, 46, 106, 119, 116]

  predicate EndsWith(p: seq<byte>, suffix: seq<byte>) {
    |suffix| <= |p| && p[|p| - |suffix|..] == suffix
  }

  /** Signing artifacts are not part of what is signed. */
  predicate Skipped(p: Path) {
    EndsWith(p, PUB_PEM) || p == MANIFEST
  }

  /** A text as its bytes. */
  function Ascii(s: string): seq<byte>
    requires forall i :: 0 <= i < |s| ==> s[i] < 128 as char
  {
    seq(|s|, i requires 0 <= i < |s| => s[i] as int)
  }

  /** A public key or the manifest, by its name. */
  ghost predicate Artifact(p: Path) {
    (exists stem :: p == stem + Ascii(".pub.pem")) || p == Ascii("manifest.jwt")
  }

  lemma NamesSpelled()
    ensures PUB_PEM == Ascii(".pub.pem") && MANIFEST == Ascii("manifest.jwt")
  {
    var a, b := ".pub.pem", "manifest.jwt";
    assert |a| == 8 && a[0] == '.' && a[1] == 'p' && a[2] == 'u' && a[3] == 'b' && a[4] == '.' && a[5] == 'p';
    assert a[6] == 'e' && a[7] == 'm';
    assert |b| == 12 && b[0] == 'm' && b[1] == 'a' && b[2] == 'n' && b[3] == 'i' && b[4] == 'f' && b[5] == 'e';
    assert b[6] == 's' && b[7] == 't' && b[8] == '.' && b[9] == 'j' && b[10] == 'w' && b[11] == 't';
  }

  lemma ArtifactExactly(p: Path)
    ensures Artifact(p) <==> Skipped(p)
  {
    NamesSpelled();
    if EndsWith(p, PUB_PEM) {
      assert p == p[..|p| - |PUB_PEM|] + PUB_PEM;
    }
    if stem :| p == stem + PUB_PEM {
      assert p[|p| - |PUB_PEM|..] == PUB_PEM;
    }
  }

  type Tree = map<Path, Content>

  function SignedPart(tree: Tree): Tree {
    map p | p in tree && !Skipped(p) :: tree[p]
  }

  predicate NoRepeats(s: seq<Path>) {
    forall i, j :: 0 <= i < j < |s| ==> s[i] != s[j]
  }

  /** A directory walk: every file once, in whatever order the file system gives. */
  ghost predicate IsWalk(tree: Tree, walk: seq<Path>) {
    NoRepeats(walk) && forall p :: p in walk <==> p in tree
  }

  function Entries(tree: Tree, paths: seq<Path>): seq<Entry>
    requires forall p <- paths :: p in tree
  {
    if paths == [] then []
    else (if Skipped(paths[0]) then [] else [Entry(paths[0], tree[paths[0]])]) + Entries(tree, paths[1..])
  }

  /** Every entry's path and content, in the order of the stream. */
  lemma {:induction false} EntriesExactly(tree: Tree, paths: seq<Path>, e: Entry)
    requires forall p <- paths :: p in tree
    ensures e in Entries(tree, paths) <==> e.path in paths && !Skipped(e.path) && tree[e.path] == e.content
  {
    if paths != [] {
      EntriesExactly(tree, paths[1..], e);
      assert paths == [paths[0]] + paths[1..];
    }
  }

  /** What `h` has absorbed when `_tree_hash` returns. */
  method TreeStream(leq: (Path, Path) -> bool, tree: Tree, walk: seq<Path>) returns (absorbed: seq<byte>)
    requires TotalPreorder(leq) && IsWalk(tree, walk)
    ensures IsWalk(tree, StableSort(leq, walk))
    ensures absorbed == Stream(Entries(tree, StableSort(leq, walk)))
    ensures Parse(absorbed).Some? && Attests(leq, tree, Parse(absorbed).value)
  {
    SortedWalk(leq, tree, walk);
    StreamAttests(leq, tree, walk);
    absorbed := AbsorbAll(tree, StableSort(leq, walk));
  }

  method AbsorbAll(tree: Tree, paths: seq<Path>) returns (absorbed: seq<byte>)
    requires forall p <- paths :: p in tree
    ensures absorbed == Stream(Entries(tree, paths))
  {
    absorbed := [];
    assert paths[0..] == paths && AbsorbedSo(tree, paths, 0, absorbed);
    for i := 0 to |paths|
      invariant AbsorbedSo(tree, paths, i, absorbed)
    {
      AbsorbStep(tree, paths, i, absorbed);
      if Skipped(paths[i]) { continue; }
      absorbed := AbsorbFile(absorbed, paths[i], tree[paths[i]]);
    }
    assert paths[|paths|..] == [] && absorbed + [] == absorbed;
  }

  /** What the first `i` files put in front of the rest of the stream. */
  ghost predicate AbsorbedSo(tree: Tree, paths: seq<Path>, i: nat, absorbed: seq<byte>)
    requires i <= |paths| && forall p <- paths :: p in tree
  {
    absorbed + Stream(Entries(tree, paths[i..])) == Stream(Entries(tree, paths))
  }

  lemma AbsorbStep(tree: Tree, paths: seq<Path>, i: nat, absorbed: seq<byte>)
    requires i < |paths| && forall p <- paths :: p in tree
    requires AbsorbedSo(tree, paths, i, absorbed)
    ensures AbsorbedSo(tree, paths, i + 1,
              if Skipped(paths[i]) then absorbed else absorbed + Frame(Entry(paths[i], tree[paths[i]])))
  {
    StreamStep(tree, paths, i);
    var frame := if Skipped(paths[i]) then [] else Frame(Entry(paths[i], tree[paths[i]]));
    ConcatAssociates(absorbed, frame, Stream(Entries(tree, paths[i + 1..])));
    assert absorbed + [] == absorbed;
  }

  /** The four updates for one file. */
  method AbsorbFile(before: seq<byte>, p: Path, content: Content) returns (absorbed: seq<byte>)
    ensures absorbed == before + Frame(Entry(p, content))
  {
    absorbed := before + p;
    absorbed := absorbed + [0];
    absorbed := absorbed + ToBytes(|content|, 8);
    absorbed := absorbed + content;
  }

  lemma ConcatAssociates(a: seq<byte>, b: seq<byte>, c: seq<byte>)
    ensures a + (b + c) == (a + b) + c
  {
  }

  lemma StreamStep(tree: Tree, paths: seq<Path>, i: nat)
    requires i < |paths| && forall p <- paths :: p in tree
    ensures Stream(Entries(tree, paths[i..]))
         == (if Skipped(paths[i]) then [] else Frame(Entry(paths[i], tree[paths[i]])))
             + Stream(Entries(tree, paths[i + 1..]))
  {
    assert paths[i..][1..] == paths[i + 1..];
    var rest := Entries(tree, paths[i + 1..]);
    if Skipped(paths[i]) {
      assert Entries(tree, paths[i..]) == rest;
    } else {
      var e := Entry(paths[i], tree[paths[i]]);
      assert ([e] + rest)[1..] == rest;
    }
  }

  lemma SortedWalk(leq: (Path, Path) -> bool, tree: Tree, walk: seq<Path>)
    requires TotalPreorder(leq) && IsWalk(tree, walk)
    ensures IsWalk(tree, StableSort(leq, walk)) && SortedBy(leq, StableSort(leq, walk))
  {
    SortSorts(leq, walk);
    var s := StableSort(leq, walk);
    forall p ensures p in s <==> p in walk {
      assert p in s <==> p in multiset(s);
      assert p in walk <==> p in multiset(walk);
    }
    forall i, j | 0 <= i < j < |s| ensures s[i] != s[j] {
      if s[i] == s[j] {
        Twice(s, i, j);
        Once(walk, s[i]);
      }
    }
  }

  lemma Twice(s: seq<Path>, i: nat, j: nat)
    requires i < j < |s| && s[i] == s[j]
    ensures multiset(s)[s[i]] >= 2
  {
    assert s == s[..i] + [s[i]] + s[i + 1..j] + [s[j]] + s[j + 1..];
  }

  lemma {:induction false} Once(s: seq<Path>, p: Path)
    requires NoRepeats(s)
    ensures multiset(s)[p] <= 1
    ensures multiset(s)[p] == 1 <==> p in s
  {
    if s != [] {
      Once(s[1..], p);
      assert s == [s[0]] + s[1..];
      assert s[0] !in s[1..];
    }
  }

  function SignedPaths(paths: seq<Path>): (r: seq<Path>)
    ensures forall p :: p in r <==> p in paths && !Skipped(p)
  {
    if paths == [] then []
    else
      assert paths == [paths[0]] + paths[1..];
      (if Skipped(paths[0]) then [] else [paths[0]]) + SignedPaths(paths[1..])
  }

  lemma {:induction false} SignedPathsSorted(leq: (Path, Path) -> bool, paths: seq<Path>)
    requires NoRepeats(paths) && SortedBy(leq, paths)
    ensures NoRepeats(SignedPaths(paths)) && SortedBy(leq, SignedPaths(paths))
  {
    if paths != [] {
      SignedPathsSorted(leq, paths[1..]);
      var rest := SignedPaths(paths[1..]);
      forall p <- rest ensures p != paths[0] && leq(paths[0], p) {
        var k :| 0 <= k < |paths[1..]| && paths[1..][k] == p;
        assert paths[k + 1] == p;
      }
    }
  }

  lemma {:induction false} EntriesOfSigned(tree: Tree, other: Tree, paths: seq<Path>)
    requires forall p <- paths :: p in tree
    requires SignedPart(tree) == SignedPart(other)
    ensures forall p <- SignedPaths(paths) :: p in other
    ensures Entries(tree, paths) == Entries(other, SignedPaths(paths))
  {
    forall p <- SignedPaths(paths) ensures p in other { assert p in SignedPart(tree); }
    if paths != [] {
      EntriesOfSigned(tree, other, paths[1..]);
      if !Skipped(paths[0]) {
        assert paths[0] in SignedPart(tree);
        assert tree[paths[0]] == SignedPart(tree)[paths[0]] == SignedPart(other)[paths[0]];
        assert SignedPaths(paths)[1..] == SignedPaths(paths[1..]);
      } else {
        assert SignedPaths(paths) == SignedPaths(paths[1..]);
      }
    }
  }

  lemma SameItems(a: seq<Path>, b: seq<Path>)
    requires NoRepeats(a) && NoRepeats(b) && forall p :: p in a <==> p in b
    ensures multiset(a) == multiset(b)
  {
    forall p ensures multiset(a)[p] == multiset(b)[p] {
      Once(a, p);
      Once(b, p);
    }
  }

  /** Two walks of trees with the same signed part give the same entries. */
  lemma SameEntries(leq: (Path, Path) -> bool, t1: Tree, w1: seq<Path>, t2: Tree, w2: seq<Path>)
    requires TotalPreorder(leq) && Antisymmetric(leq)
    requires IsWalk(t1, w1) && IsWalk(t2, w2) && SignedPart(t1) == SignedPart(t2)
    ensures IsWalk(t1, StableSort(leq, w1)) && IsWalk(t2, StableSort(leq, w2))
    ensures Entries(t1, StableSort(leq, w1)) == Entries(t2, StableSort(leq, w2))
  {
    SortedWalk(leq, t1, w1);
    SortedWalk(leq, t2, w2);
    var p1, p2 := StableSort(leq, w1), StableSort(leq, w2);
    SignedPathsSorted(leq, p1);
    SignedPathsSorted(leq, p2);
    var s1, s2 := SignedPaths(p1), SignedPaths(p2);
    forall p ensures p in s1 <==> p in s2 {
      assert p in s1 <==> p in SignedPart(t1);
      assert p in s2 <==> p in SignedPart(t2);
    }
    SameItems(s1, s2);
    SortedUnique(leq, s1, s2);
    EntriesOfSigned(t1, t2, p1);
    EntriesOfSigned(t2, t2, p2);
  }

  /**
   * Two trees, walked in any order, give the same stream exactly if their signed
   * files are the same files with the same contents.
   */
  lemma StreamIdentifiesTree(leq: (Path, Path) -> bool, t1: Tree, w1: seq<Path>, t2: Tree, w2: seq<Path>)
    requires TotalPreorder(leq) && Antisymmetric(leq)
    requires IsWalk(t1, w1) && IsWalk(t2, w2)
    ensures IsWalk(t1, StableSort(leq, w1)) && IsWalk(t2, StableSort(leq, w2))
    ensures Stream(Entries(t1, StableSort(leq, w1))) == Stream(Entries(t2, StableSort(leq, w2)))
       <==> SignedPart(t1) == SignedPart(t2)
  {
    SortedWalk(leq, t1, w1);
    SortedWalk(leq, t2, w2);
    if SignedPart(t1) == SignedPart(t2) {
      SameEntries(leq, t1, w1, t2, w2);
    }
    SameStreamSameParts(t1, StableSort(leq, w1), t2, StableSort(leq, w2));
  }

  /** The framing is injective. */
  lemma StreamsApart(a: seq<Entry>, b: seq<Entry>)
    ensures Stream(a) == Stream(b) <==> a == b
  {
    ParseInvertsStream(a);
    ParseInvertsStream(b);
  }

  lemma MapsAgree<K, V>(a: map<K, V>, b: map<K, V>)
    requires forall k <- a :: k in b && a[k] == b[k]
    requires forall k <- b :: k in a && b[k] == a[k]
    ensures a == b
  {
  }

  lemma SameStreamSameParts(t1: Tree, p1: seq<Path>, t2: Tree, p2: seq<Path>)
    requires IsWalk(t1, p1) && IsWalk(t2, p2)
    ensures Stream(Entries(t1, p1)) == Stream(Entries(t2, p2)) ==> SignedPart(t1) == SignedPart(t2)
  {
    StreamsApart(Entries(t1, p1), Entries(t2, p2));
    if Entries(t1, p1) == Entries(t2, p2) {
      SignedPartFromEntries(t1, p1, t2, p2);
      SignedPartFromEntries(t2, p2, t1, p1);
      MapsAgree(SignedPart(t1), SignedPart(t2));
    }
  }

  lemma SignedPartFromEntries(t1: Tree, p1: seq<Path>, t2: Tree, p2: seq<Path>)
    requires IsWalk(t1, p1) && IsWalk(t2, p2) && Entries(t1, p1) == Entries(t2, p2)
    ensures forall p <- SignedPart(t1) :: p in SignedPart(t2) && SignedPart(t1)[p] == SignedPart(t2)[p]
  {
    forall p <- SignedPart(t1) ensures p in SignedPart(t2) && SignedPart(t1)[p] == SignedPart(t2)[p] {
      EntriesExactly(t1, p1, Entry(p, t1[p]));
      EntriesExactly(t2, p2, Entry(p, t1[p]));
    }
  }

  // ----------------------------------------------------- what the stream attests

  /** The files of the stream, each once, in path order: exactly those that are no artifact, with their contents. */
  ghost predicate Attests(leq: (Path, Path) -> bool, tree: Tree, es: seq<Entry>) {
    && (forall p, c :: Entry(p, c) in es <==> p in tree && !Artifact(p) && tree[p] == c)
    && Ascending(leq, es)
  }

  ghost predicate Ascending(leq: (Path, Path) -> bool, es: seq<Entry>) {
    forall i, j :: 0 <= i < j < |es| ==> leq(es[i].path, es[j].path) && es[i].path != es[j].path
  }

  lemma AscendingCons(leq: (Path, Path) -> bool, e: Entry, es: seq<Entry>)
    requires Ascending(leq, es) && forall x <- es :: leq(e.path, x.path) && e.path != x.path
    ensures Ascending(leq, [e] + es)
  {
  }

  lemma {:induction false} EntriesInOrder(leq: (Path, Path) -> bool, tree: Tree, paths: seq<Path>)
    requires (forall p <- paths :: p in tree) && NoRepeats(paths) && SortedBy(leq, paths)
    ensures Ascending(leq, Entries(tree, paths))
  {
    if paths != [] {
      var rest := Entries(tree, paths[1..]);
      EntriesInOrder(leq, tree, paths[1..]);
      if Skipped(paths[0]) {
        assert Entries(tree, paths) == [] + rest == rest;
      } else {
        forall e <- rest ensures leq(paths[0], e.path) && e.path != paths[0] {
          EntriesExactly(tree, paths[1..], e);
          var k :| 0 <= k < |paths[1..]| && paths[1..][k] == e.path;
          assert paths[k + 1] == e.path;
        }
        AscendingCons(leq, Entry(paths[0], tree[paths[0]]), rest);
      }
    }
  }

  /** The stream parses to exactly the signed files. */
  lemma StreamAttests(leq: (Path, Path) -> bool, tree: Tree, walk: seq<Path>)
    requires TotalPreorder(leq) && IsWalk(tree, walk)
    ensures IsWalk(tree, StableSort(leq, walk))
    ensures var r := Parse(Stream(Entries(tree, StableSort(leq, walk))));
            r.Some? && Attests(leq, tree, r.value)
  {
    SortedWalk(leq, tree, walk);
    var paths := StableSort(leq, walk);
    var es := Entries(tree, paths);
    ParseInvertsStream(es);
    EntriesInOrder(leq, tree, paths);
    forall p, c ensures Entry(p, c) in es <==> p in tree && !Artifact(p) && tree[p] == c {
      EntriesExactly(tree, paths, Entry(p, c));
      ArtifactExactly(p);
    }
  }

  /** The same files apart from artifacts, with the same contents. */
  ghost predicate SameSigned(t1: Tree, t2: Tree) {
    forall p :: !Artifact(p) ==> (p in t1 <==> p in t2) && (p in t1 && p in t2 ==> t1[p] == t2[p])
  }

  lemma SameSignedExactly(t1: Tree, t2: Tree)
    ensures SameSigned(t1, t2) <==> SignedPart(t1) == SignedPart(t2)
  {
    forall p ensures Artifact(p) <==> Skipped(p) { ArtifactExactly(p); }
    if SignedPart(t1) == SignedPart(t2) {
      forall p | !Artifact(p) ensures (p in t1 <==> p in t2) && (p in t1 && p in t2 ==> t1[p] == t2[p]) {
        assert p in t1 <==> p in SignedPart(t1);
        assert p in t2 <==> p in SignedPart(t2);
        if p in t1 { assert t1[p] == SignedPart(t1)[p]; }
      }
    }
  }

  /** A file that is no artifact added, removed or changed shows in the stream, and nothing else does. */
  lemma TamperingShowsExactly(leq: (Path, Path) -> bool, t1: Tree, w1: seq<Path>, t2: Tree, w2: seq<Path>)
    requires TotalPreorder(leq) && Antisymmetric(leq)
    requires IsWalk(t1, w1) && IsWalk(t2, w2)
    ensures IsWalk(t1, StableSort(leq, w1)) && IsWalk(t2, StableSort(leq, w2))
    ensures Stream(Entries(t1, StableSort(leq, w1))) == Stream(Entries(t2, StableSort(leq, w2)))
       <==> SameSigned(t1, t2)
  {
    StreamIdentifiesTree(leq, t1, w1, t2, w2);
    SameSignedExactly(t1, t2);
  }

  /** How one file is framed: path, a zero byte, the length in eight bytes, the content. */
  lemma FrameLayout(e: Entry, i: nat)
    requires i < 8
    ensures var s, n := Stream([e]), |e.path|;
            && |s| == n + 9 + |e.content| && s[..n] == e.path && s[n] == 0 && s[n + 9..] == e.content
            && Power256(7 - i) > 0 && s[n + 1 + i] == |e.content| / Power256(7 - i) % 256
  {
    assert [e][1..] == [] && Stream([e]) == Frame(e) + [];
    BigEndian(|e.content|, 8, i);
    var s, n := Stream([e]), |e.path|;
    assert s == e.path + [0] + ToBytes(|e.content|, 8) + e.content;
  }

  /** Writing a signing artifact into a tree afterwards leaves the stream unchanged. */
  lemma ArtifactsDoNotCount(leq: (Path, Path) -> bool, tree: Tree, walk: seq<Path>, artifact: Path, content: Content,
                            walk': seq<Path>)
    requires TotalPreorder(leq) && Antisymmetric(leq)
    requires Artifact(artifact) && IsWalk(tree, walk) && IsWalk(tree[artifact := content], walk')
    ensures IsWalk(tree, StableSort(leq, walk)) && IsWalk(tree[artifact := content], StableSort(leq, walk'))
    ensures Stream(Entries(tree, StableSort(leq, walk)))
              == Stream(Entries(tree[artifact := content], StableSort(leq, walk')))
  {
    ArtifactExactly(artifact);
    assert SignedPart(tree) == SignedPart(tree[artifact := content]);
    StreamIdentifiesTree(leq, tree, walk, tree[artifact := content], walk');
  }
}
