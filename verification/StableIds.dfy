/** Stable ids: slugs, the grammar, and filling in the ids a document leaves out. */
module StableIds {
  import opened Decimals
  import opened RuleText

  const SLUG_MAX := 24
  const ID_MAX := 128
  const ID_KEY := "id"
  const NAME_KEY := "name"

  // ----------------------------------------------------------------------- slug

  /**
   * Every run of other characters than ASCII letters and digits becomes one dash;
   * `inRun` says that the character before was replaced too.
   */
  function Collapse(s: string, inRun: bool): string {
    if s == [] then []
    else if IsAlnum(s[0]) then [s[0]] + Collapse(s[1..], false)
    else (if inRun then [] else ['-']) + Collapse(s[1..], true)
  }

  function LStrip(s: string): string { if s != [] && s[0] == '-' then LStrip(s[1..]) else s }

  function RStrip(s: string): string { if s != [] && s[|s| - 1] == '-' then RStrip(s[..|s| - 1]) else s }

  function LowerChar(c: char): char { if 'A' <= c <= 'Z' then c - 'A' + 'a' else c }

  function Lower(s: string): string { seq(|s|, i requires 0 <= i < |s| => LowerChar(s[i])) }

  function Slug(text: string): string {
    var s := Lower(RStrip(LStrip(Collapse(text, false))));
    if |s| <= SLUG_MAX then s else s[..SLUG_MAX]
  }

  predicate IdStart(c: char) { 'a' <= c <= 'z' || '0' <= c <= '9' }

  predicate IdChar(c: char) { IdStart(c) || c == '_' || c == '-' || c == '.' }

  /** `_validate_stable_id` accepts; the pattern's `$` lets one final newline through. */
  predicate Accepted(s: string) { |s| <= ID_MAX && Chomp(s) != [] && IdStart(Chomp(s)[0]) && AllIn(Chomp(s), IdChar) }

  predicate SlugChar(c: char) { IdStart(c) || c == '-' }

  predicate AlnumOrDash(c: char) { IsAlnum(c) || c == '-' }

  lemma {:induction false} CollapsedChars(s: string, inRun: bool)
    ensures AllIn(Collapse(s, inRun), AlnumOrDash)
  {
    if s != [] { CollapsedChars(s[1..], !IsAlnum(s[0])); }
  }

  lemma {:induction false} LStripped(s: string)
    requires AllIn(s, AlnumOrDash)
    ensures AllIn(LStrip(s), AlnumOrDash) && (LStrip(s) != [] ==> IsAlnum(LStrip(s)[0]))
  {
    if s != [] && s[0] == '-' { LStripped(s[1..]); }
  }

  lemma {:induction false} RStripped(s: string)
    requires AllIn(s, AlnumOrDash) && (s != [] ==> IsAlnum(s[0]))
    ensures AllIn(RStrip(s), AlnumOrDash) && (RStrip(s) != [] ==> IsAlnum(RStrip(s)[0]))
  {
    if s != [] && s[|s| - 1] == '-' { RStripped(s[..|s| - 1]); }
  }

  /** A slug is empty, or starts with a letter or digit and is lower case with dashes, at most 24 long. */
  lemma SlugShape(text: string)
    ensures var s := Slug(text);
            |s| <= SLUG_MAX && AllIn(s, SlugChar) && (s != [] ==> IdStart(s[0]))
  {
    var a := Collapse(text, false);
    CollapsedChars(text, false);
    LStripped(a);
    RStripped(LStrip(a));
    var b := RStrip(LStrip(a));
    forall i | 0 <= i < |b| ensures SlugChar(Lower(b)[i]) { assert AlnumOrDash(b[i]); }
  }

  /** The letters and digits of `s`, in order. */
  function Letters(s: string): string {
    if s == [] then [] else Letters(s[..|s| - 1]) + if IsAlnum(s[|s| - 1]) then [s[|s| - 1]] else []
  }

  lemma {:induction false} LettersConcat(a: string, b: string)
    ensures Letters(a + b) == Letters(a) + Letters(b)
  {
    if b == [] {
      assert a + b == a;
    } else {
      LettersConcat(a, b[..|b| - 1]);
      assert (a + b)[..|a + b| - 1] == a + b[..|b| - 1];
    }
  }

  lemma LettersOfOne(c: char)
    ensures Letters([c]) == if IsAlnum(c) then [c] else []
  {
    assert [c][..0] == [];
  }

  lemma LettersCons(c: char, s: string)
    ensures Letters([c] + s) == (if IsAlnum(c) then [c] else []) + Letters(s)
  {
    LettersOfOne(c);
    LettersConcat([c], s);
  }

  lemma {:induction false} CollapseKeepsLetters(s: string, inRun: bool)
    ensures Letters(Collapse(s, inRun)) == Letters(s)
  {
    if s != [] {
      var rest := Collapse(s[1..], !IsAlnum(s[0]));
      CollapseKeepsLetters(s[1..], !IsAlnum(s[0]));
      assert s == [s[0]] + s[1..];
      LettersCons(s[0], s[1..]);
      LettersCons(s[0], rest);
      LettersCons('-', rest);
      assert [] + rest == rest;
    }
  }

  lemma {:induction false} StripKeepsLetters(s: string)
    ensures Letters(LStrip(s)) == Letters(s) && Letters(RStrip(s)) == Letters(s)
  {
    if s != [] {
      assert s == [s[0]] + s[1..];
      LettersCons(s[0], s[1..]);
      StripKeepsLetters(s[1..]);
      StripKeepsLetters(s[..|s| - 1]);
    }
  }

  lemma {:induction false} LowerKeepsLetters(s: string)
    ensures Letters(Lower(s)) == Lower(Letters(s))
  {
    if s != [] {
      var n := |s| - 1;
      LowerKeepsLetters(s[..n]);
      assert Lower(s)[..n] == Lower(s[..n]);
      assert IsAlnum(LowerChar(s[n])) <==> IsAlnum(s[n]);
    }
  }

  /** A slug spells the text's letters and digits, lower-cased, in order; only the length limit can drop any. */
  lemma SlugSpells(text: string)
    ensures Letters(Slug(text)) <= Lower(Letters(text))
    ensures |Slug(text)| < SLUG_MAX ==> Letters(Slug(text)) == Lower(Letters(text))
  {
    var a := Collapse(text, false);
    CollapseKeepsLetters(text, false);
    StripKeepsLetters(a);
    StripKeepsLetters(LStrip(a));
    var s := Lower(RStrip(LStrip(a)));
    LowerKeepsLetters(RStrip(LStrip(a)));
    if |s| > SLUG_MAX {
      LettersConcat(s[..SLUG_MAX], s[SLUG_MAX..]);
      assert s == s[..SLUG_MAX] + s[SLUG_MAX..];
    }
  }

  // ----------------------------------------------------------- candidates for ids

  /** The base, or the word item for an empty one, with a dash and a number. */
  function Suffixed(base: string, n: nat): string { (if base == "" then "item" else base) + "-" + Digits(n) }

  lemma SuffixesApart(base: string, n: nat, m: nat)
    ensures Suffixed(base, n) == Suffixed(base, m) <==> n == m
  {
    var stem := (if base == "" then "item" else base) + "-";
    assert Suffixed(base, n)[|stem|..] == Digits(n) && Suffixed(base, m)[|stem|..] == Digits(m);
    DigitsApart(n, m);
  }

  /** The ids already taken that have this base and a suffix of at least `n`. */
  ghost function Taken(seen: set<string>, base: string, n: nat): set<string> {
    set s | s in seen && exists k: nat :: k >= n && s == Suffixed(base, k)
  }

  /** Each failed candidate uses up one of the finitely many ids already seen. */
  lemma FewerTaken(seen: set<string>, base: string, n: nat)
    requires Suffixed(base, n) in seen
    ensures Taken(seen, base, n) == Taken(seen, base, n + 1) + {Suffixed(base, n)}
    ensures |Taken(seen, base, n)| == |Taken(seen, base, n + 1)| + 1
  {
    var own := Suffixed(base, n);
    forall k: nat | k > n ensures Suffixed(base, k) != own { SuffixesApart(base, k, n); }
    assert own !in Taken(seen, base, n + 1);
    forall s ensures s in Taken(seen, base, n) <==> s in Taken(seen, base, n + 1) || s == own {
      if s in Taken(seen, base, n) {
        var k: nat :| k >= n && s == Suffixed(base, k);
        assert k == n || k >= n + 1;
      }
    }
  }

  /** The smallest free suffix from `n` on. */
  function FreeSuffix(seen: set<string>, base: string, n: nat): (r: nat)
    ensures r >= n && Suffixed(base, r) !in seen && forall k :: n <= k < r ==> Suffixed(base, k) in seen
    decreases |Taken(seen, base, n)|
  {
    if Suffixed(base, n) !in seen then n
    else
      FewerTaken(seen, base, n);
      FreeSuffix(seen, base, n + 1)
  }

  /** Pigeonhole: the search cannot outlast the ids already seen. */
  lemma {:induction false} FreeSuffixIsNear(seen: set<string>, base: string, n: nat)
    ensures FreeSuffix(seen, base, n) <= n + |Taken(seen, base, n)|
    decreases |Taken(seen, base, n)|
  {
    if Suffixed(base, n) in seen {
      FewerTaken(seen, base, n);
      FreeSuffixIsNear(seen, base, n + 1);
    }
  }

  function Choose(seen: set<string>, base: string): (id: string)
    ensures id !in seen && id != ""
  {
    if base != "" && base !in seen then base else Suffixed(base, FreeSuffix(seen, base, 2))
  }

  // ---------------------------------------------------------------------- items

  /** A dictionary in insertion order, its values already as text; falsy values are empty. */
  type Item = seq<(string, string)>

  function Get(item: Item, key: string): string {
    if item == [] then "" else if item[0].0 == key then item[0].1 else Get(item[1..], key)
  }

  /** The field set in place, or added at the end. */
  function Put(item: Item, key: string, value: string): Item {
    if item == [] then [(key, value)]
    else if item[0].0 == key then [(key, value)] + item[1..]
    else [item[0]] + Put(item[1..], key, value)
  }

  lemma {:induction false} PutGet(item: Item, key: string, value: string, other: string)
    ensures Get(Put(item, key, value), other) == if other == key then value else Get(item, other)
  {
    if item != [] && item[0].0 != key {
      PutGet(item[1..], key, value, other);
      assert Put(item, key, value)[1..] == Put(item[1..], key, value);
    }
  }

  /** What an id is made from: the name, or else the first value there is. */
  function NameText(item: Item): string {
    var name := Get(item, NAME_KEY);
    if name != "" then name else if item == [] then "" else item[0].1
  }

  function ExplicitIds(items: seq<Item>): set<string> {
    set i | 0 <= i < |items| && Get(items[i], ID_KEY) != "" :: Get(items[i], ID_KEY)
  }

  function IdSet(ids: seq<string>): set<string> { set i | 0 <= i < |ids| :: ids[i] }

  /** The id of every item, in order; `taken` holds all explicit ids. */
  function Ids(items: seq<Item>, taken: set<string>): (ids: seq<string>)
    ensures |ids| == |items|
  {
    if items == [] then []
    else
      var n := |items| - 1;
      var before := Ids(items[..n], taken);
      var own := Get(items[n], ID_KEY);
      before + [if own != "" then own else Choose(taken + IdSet(before), Slug(NameText(items[n])))]
  }

  function WithIds(items: seq<Item>, ids: seq<string>): seq<Item>
    requires |ids| == |items|
  {
    seq(|items|, i requires 0 <= i < |items| =>
                   if Get(items[i], ID_KEY) != "" then items[i] else Put(items[i], ID_KEY, ids[i]))
  }

  method ChooseId(seen: set<string>, base: string) returns (candidate: string)
    ensures candidate == Choose(seen, base)
  {
    candidate := base;
    var n: nat := 2;
    while candidate in seen || candidate == ""
      invariant n >= 2 && (n == 2 ==> candidate == base) && (n > 2 ==> candidate == Suffixed(base, n - 1))
      invariant n > 2 ==> base == "" || base in seen
      invariant forall k :: 2 <= k < n - 1 ==> Suffixed(base, k) in seen
      decreases |Taken(seen, base, if n == 2 then 2 else n - 1)|, n == 2
    {
      if n > 2 { FewerTaken(seen, base, n - 1); }
      candidate := Suffixed(base, n);
      n := n + 1;
    }
    if n > 2 { FreeSuffixIs(seen, base, n - 1); }
  }

  lemma FreeSuffixIs(seen: set<string>, base: string, n: nat)
    requires n >= 2 && Suffixed(base, n) !in seen && forall k :: 2 <= k < n ==> Suffixed(base, k) in seen
    ensures FreeSuffix(seen, base, 2) == n
  {
    var r := FreeSuffix(seen, base, 2);
    assert Suffixed(base, r) !in seen;
  }

  method SeenIds(items: seq<Item>) returns (seen: set<string>)
    ensures seen == ExplicitIds(items)
  {
    seen := {};
    for i := 0 to |items|
      invariant seen == ExplicitIds(items[..i])
    {
      var own := Get(items[i], ID_KEY);
      NextExplicit(items, i);
      if own != "" { seen := seen + {own}; }
    }
    assert items[..|items|] == items;
  }

  /** The items after the first `i` have been given their ids. */
  ghost predicate FilledTo(items: seq<Item>, out: seq<Item>, ids: seq<string>, i: nat) {
    && |out| == |items| && i == |ids| <= |items|
    && (forall j :: 0 <= j < i ==>
       out[j] == if Get(items[j], ID_KEY) != "" then items[j] else Put(items[j], ID_KEY, ids[j]))
    && (forall j :: i <= j < |items| ==> out[j] == items[j])
  }

  lemma FillStep(items: seq<Item>, out: seq<Item>, ids: seq<string>, i: nat, id: string)
    requires FilledTo(items, out, ids, i) && i < |items|
    ensures Get(items[i], ID_KEY) != "" ==> FilledTo(items, out, ids + [id], i + 1)
    ensures Get(items[i], ID_KEY) == "" ==> FilledTo(items, out[i := Put(out[i], ID_KEY, id)], ids + [id], i + 1)
  {
  }

  lemma IdsNext(items: seq<Item>, taken: set<string>, i: nat)
    requires i < |items|
    ensures var before, own := Ids(items[..i], taken), Get(items[i], ID_KEY);
            Ids(items[..i + 1], taken)
                == before + [if own != "" then own else Choose(taken + IdSet(before), Slug(NameText(items[i])))]
  {
    assert items[..i + 1][..i] == items[..i];
  }

  method AutogenIds(items: seq<Item>) returns (out: seq<Item>)
    ensures out == WithIds(items, Ids(items, ExplicitIds(items)))
  {
    var seen := SeenIds(items);
    ghost var taken := seen;
    ghost var ids: seq<string> := [];
    out := items;
    for i := 0 to |items|
      invariant ids == Ids(items[..i], taken) && FilledTo(items, out, ids, i)
      invariant seen == taken + IdSet(ids)
    {
      IdsNext(items, taken, i);
      var id := Get(out[i], ID_KEY);
      if id != "" {
        ExplicitHas(items, i);
      } else {
        id := ChooseId(seen, Slug(NameText(out[i])));
      }
      FillStep(items, out, ids, i, id);
      NextId(ids, id);
      if Get(out[i], ID_KEY) == "" {
        out := out[i := Put(out[i], ID_KEY, id)];
        seen := seen + {id};
      }
      ids := ids + [id];
    }
    assert items[..|items|] == items;
  }

  lemma NextId(ids: seq<string>, id: string)
    ensures IdSet(ids + [id]) == IdSet(ids) + {id}
  {
    var longer := ids + [id];
    assert longer[|ids|] == id;
    forall s ensures s in IdSet(longer) <==> s in IdSet(ids) || s == id {
      if s in IdSet(ids) {
        var i :| 0 <= i < |ids| && ids[i] == s;
        assert longer[i] == s;
      }
    }
  }

  lemma ExplicitHas(items: seq<Item>, i: nat)
    requires i < |items| && Get(items[i], ID_KEY) != ""
    ensures Get(items[i], ID_KEY) in ExplicitIds(items)
  {
  }

  lemma NextExplicit(items: seq<Item>, i: nat)
    requires i < |items|
    ensures ExplicitIds(items[..i + 1])
         == ExplicitIds(items[..i]) + if Get(items[i], ID_KEY) != "" then {Get(items[i], ID_KEY)} else {}
  {
    var before, now := items[..i], items[..i + 1];
    forall s ensures s in ExplicitIds(now) <==> s in ExplicitIds(before) || (s == Get(items[i], ID_KEY) && s != "") {
      if s in ExplicitIds(before) {
        var j :| 0 <= j < |before| && Get(before[j], ID_KEY) != "" && Get(before[j], ID_KEY) == s;
        assert now[j] == before[j];
      }
      if s in ExplicitIds(now) {
        var j :| 0 <= j < |now| && Get(now[j], ID_KEY) != "" && Get(now[j], ID_KEY) == s;
        if j < i { assert before[j] == now[j]; }
      }
      if s == Get(items[i], ID_KEY) && s != "" { assert now[i] == items[i]; }
    }
  }

  // ------------------------------------------------------------------ what holds

  /** Where the id of one item comes from. */
  lemma {:induction false} IdAt(items: seq<Item>, taken: set<string>, i: nat)
    requires i < |items|
    ensures var own, id := Get(items[i], ID_KEY), Ids(items, taken)[i];
            id == if own != "" then own else Choose(taken + IdSet(Ids(items[..i], taken)), Slug(NameText(items[i])))
    ensures Ids(items, taken)[..i] == Ids(items[..i], taken)
  {
    var n := |items| - 1;
    if i < n {
      IdAt(items[..n], taken, i);
      assert items[..n][..i] == items[..i];
    }
  }

  /** Ids given are kept, all ids are non-empty, and a generated id is none of the explicit or earlier ones. */
  lemma IdsAreFresh(items: seq<Item>, i: nat)
    requires i < |items|
    ensures var ids, own := Ids(items, ExplicitIds(items)), Get(items[i], ID_KEY);
            && ids[i] != "" && (own != "" ==> ids[i] == own)
            && (own == "" ==> ids[i] !in ExplicitIds(items) && forall j :: 0 <= j < i ==> ids[j] != ids[i])
  {
    var taken := ExplicitIds(items);
    var ids := Ids(items, taken);
    IdAt(items, taken, i);
    if Get(items[i], ID_KEY) == "" {
      forall j | 0 <= j < i ensures ids[j] != ids[i] {
        assert ids[..i][j] in IdSet(ids[..i]);
      }
    }
  }

  /** Two items share an id only if both came with it. */
  lemma SharedIdsWereGiven(items: seq<Item>, i: nat, j: nat)
    requires i < j < |items|
    ensures var ids := Ids(items, ExplicitIds(items));
            ids[i] == ids[j] <==> Get(items[i], ID_KEY) != "" && Get(items[i], ID_KEY) == Get(items[j], ID_KEY)
  {
    IdsAreFresh(items, i);
    IdsAreFresh(items, j);
    if Get(items[i], ID_KEY) != "" { ExplicitHas(items, i); }
    if Get(items[j], ID_KEY) != "" { ExplicitHas(items, j); }
  }

  /** What the caller gets back: the ids, and every other field as it was. */
  lemma OnlyIdsChange(items: seq<Item>, i: nat, key: string)
    requires i < |items|
    ensures var ids := Ids(items, ExplicitIds(items));
            Get(WithIds(items, ids)[i], key) == if key == ID_KEY then ids[i] else Get(items[i], key)
  {
    var ids := Ids(items, ExplicitIds(items));
    IdsAreFresh(items, i);
    PutGet(items[i], ID_KEY, ids[i], key);
  }

  /** Short stems with short suffixes satisfy the grammar. */
  lemma SuffixedAccepted(base: string, n: nat)
    requires |base| <= SLUG_MAX && AllIn(base, SlugChar) && (base != "" ==> IdStart(base[0]))
    ensures n < Pow10(103) ==> Accepted(Suffixed(base, n))
    ensures |base| == SLUG_MAX ==> (Accepted(Suffixed(base, n)) <==> n < Pow10(103))
  {
    var stem := if base == "" then "item" else base;
    var s := Suffixed(base, n);
    DigitsLength(n, 103);
    assert |s| == |stem| + 1 + |Digits(n)|;
    forall i | 0 <= i < |s| ensures IdChar(s[i]) {
      if i < |stem| {
        assert s[i] == stem[i];
        assert base != "" ==> SlugChar(base[i]);
      } else if i > |stem| {
        assert s[i] == Digits(n)[i - |stem| - 1];
        assert IsDigit(Digits(n)[i - |stem| - 1]);
      }
    }
    assert IdChar(s[|s| - 1]);
    assert Chomp(s) == s && s[0] == stem[0];
  }

  lemma PlainAccepted(base: string)
    requires |base| <= SLUG_MAX && AllIn(base, SlugChar) && base != "" && IdStart(base[0])
    ensures Accepted(base)
  {
    assert SlugChar(base[|base| - 1]);
    forall i | 0 <= i < |base| ensures IdChar(base[i]) { assert SlugChar(base[i]); }
  }

  lemma {:induction false} IdSetSize(ids: seq<string>)
    ensures |IdSet(ids)| <= |ids|
  {
    if ids == [] {
      assert IdSet(ids) == {};
    } else {
      var n := |ids| - 1;
      IdSetSize(ids[..n]);
      NextId(ids[..n], ids[n]);
      assert ids == ids[..n] + [ids[n]];
    }
  }

  lemma SubsetSize<T>(a: set<T>, b: set<T>)
    requires a <= b
    ensures |a| <= |b|
  {
    assert b == a + (b - a);
  }

  lemma {:induction false} ExplicitSize(items: seq<Item>, i: nat)
    requires i <= |items|
    ensures |ExplicitIds(items[..i])| <= i
  {
    if i == 0 {
      assert ExplicitIds(items[..0]) == {};
    } else {
      ExplicitSize(items, i - 1);
      NextExplicit(items, i - 1);
    }
  }

  /** Every generated id satisfies the stable-id grammar, as long as there are fewer than 10^102 items. */
  lemma GeneratedIdsAccepted(items: seq<Item>, i: nat)
    requires i < |items| < Pow10(102) && Get(items[i], ID_KEY) == ""
    ensures Accepted(Ids(items, ExplicitIds(items))[i])
  {
    var taken := ExplicitIds(items);
    var before := Ids(items[..i], taken);
    var seen, base := taken + IdSet(before), Slug(NameText(items[i]));
    IdAt(items, taken, i);
    SlugShape(NameText(items[i]));
    if base != "" && base !in seen {
      PlainAccepted(base);
    } else {
      FreeSuffixIsNear(seen, base, 2);
      SubsetSize(Taken(seen, base, 2), seen);
      IdSetSize(before);
      ExplicitSize(items, |items|);
      assert items[..|items|] == items;
      PowGrows(102);
      assert Pow10(103) == 10 * Pow10(102);
      SuffixedAccepted(base, FreeSuffix(seen, base, 2));
    }
  }
}
