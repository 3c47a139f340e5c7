/**
 * Ids spelled out: the grammar they are checked against, the words a slug is made of, and what id
 * an item without one is given.
 */
module Slugs {
  import opened Decimals
  import opened RuleText
  import opened StableIds

  predicate LowerOrFigure(c: char) { 'a' <= c <= 'z' || '0' <= c <= '9' }

  predicate Spelled(name: string) {
    && name != "" && LowerOrFigure(name[0])
    && forall i :: 0 <= i < |name| ==> LowerOrFigure(name[i]) || name[i] in ['_', '-', '.']
  }

  /** Lower-case letters, figures, `_`, `-` and `.`, not one of these in front, perhaps a newline; 128 in all. */
  lemma AcceptedExactly(s: string)
    ensures Accepted(s) <==>
              |s| <= 128 && exists name, nl :: s == name + nl && Spelled(name) && (nl == "" || nl == "\n")
  {
    if Accepted(s) {
      ChompAndNewline(s);
      forall i | 0 <= i < |Chomp(s)| ensures LowerOrFigure(Chomp(s)[i]) || Chomp(s)[i] in ['_', '-', '.'] {
        assert IdChar(Chomp(s)[i]);
      }
      assert s == Chomp(s) + Newline(s) && Spelled(Chomp(s));
    }
    if name, nl :| s == name + nl && Spelled(name) && (nl == "" || nl == "\n") {
      assert LowerOrFigure(name[|name| - 1]) || name[|name| - 1] in ['_', '-', '.'];
      if nl == "" { assert s == name; } else { assert s[..|name|] == name; }
      assert Chomp(s) == name;
    }
  }

  // ---------------------------------------------------------------------- words

  predicate Alphanumeric(c: char) { 'a' <= c <= 'z' || 'A' <= c <= 'Z' || '0' <= c <= '9' }

  /** The longest runs of ASCII letters and figures in the text, in order. */
  function Words(s: string): (ws: seq<string>)
    ensures forall w <- ws :: w != "" && forall i :: 0 <= i < |w| ==> Alphanumeric(w[i])
    ensures s != "" && Alphanumeric(s[0]) ==> ws != [] && ws[0][0] == s[0]
  {
    if s == "" then []
    else if !Alphanumeric(s[0]) then Words(s[1..])
    else
      var rest := Words(s[1..]);
      if |s| > 1 && Alphanumeric(s[1]) then [[s[0]] + rest[0]] + rest[1..] else [[s[0]]] + rest
  }

  /** The words with a dash between any two. */
  function Dashed(ws: seq<string>): string {
    if ws == [] then "" else if |ws| == 1 then ws[0] else ws[0] + "-" + Dashed(ws[1..])
  }

  lemma DashedCons(c: char, ws: seq<string>)
    ensures Dashed([[c]] + ws) == if ws == [] then [c] else [c] + "-" + Dashed(ws)
    ensures ws != [] ==> Dashed([[c] + ws[0]] + ws[1..]) == [c] + Dashed(ws)
  {
    assert ([[c]] + ws)[1..] == ws;
    if ws != [] { assert ([[c] + ws[0]] + ws[1..])[1..] == ws[1..]; }
  }

  /** A dash in front for what is not part of a word, unless it was already written. */
  function Lead(s: string, inRun: bool): string { if s != "" && !Alphanumeric(s[0]) && !inRun then "-" else "" }

  function Trail(s: string): string { if Words(s) != [] && !Alphanumeric(s[|s| - 1]) then "-" else "" }

  lemma TrailOfRest(s: string)
    requires |s| > 1 && Words(s) != [] && Words(s[1..]) != []
    ensures Trail(s) == Trail(s[1..])
  {
    hide Words;
    assert s[1..][|s| - 2] == s[|s| - 1];
  }

  lemma GapStep(s: string, inRun: bool)
    requires s != "" && !Alphanumeric(s[0]) && Collapse(s[1..], true) == Dashed(Words(s[1..])) + Trail(s[1..])
    ensures Collapse(s, inRun) == Lead(s, inRun) + Dashed(Words(s)) + Trail(s)
  {
    assert !IsAlnum(s[0]) && Words(s) == Words(s[1..]);
    assert Collapse(s, inRun) == Lead(s, inRun) + Collapse(s[1..], true);
    if Words(s) != [] { TrailOfRest(s); }
    hide Collapse;
    hide Words;
    hide Dashed;
  }

  lemma CollapseLetter(s: string, inRun: bool)
    requires s != "" && Alphanumeric(s[0])
    ensures Collapse(s, inRun) == [s[0]] + Collapse(s[1..], false)
  {
    assert IsAlnum(s[0]);
  }

  lemma WordsLetter(s: string)
    requires |s| > 1 && Alphanumeric(s[0])
    ensures Words(s) != []
    ensures Alphanumeric(s[1]) ==>
              Words(s[1..]) != [] && Dashed(Words(s)) == [s[0]] + Dashed(Words(s[1..]))
    ensures !Alphanumeric(s[1]) ==>
              Dashed(Words(s)) == if Words(s[1..]) == [] then [s[0]] else [s[0]] + "-" + Dashed(Words(s[1..]))
  {
    var ws := Words(s[1..]);
    assert s[1..][0] == s[1];
    DashedCons(s[0], ws);
    hide Dashed;
  }

  lemma LetterStep(s: string, inRun: bool)
    requires |s| > 1 && Alphanumeric(s[0]) && Alphanumeric(s[1])
    requires Collapse(s[1..], false) == Dashed(Words(s[1..])) + Trail(s[1..])
    ensures Collapse(s, inRun) == Dashed(Words(s)) + Trail(s)
  {
    hide *;
    CollapseLetter(s, inRun);
    WordsLetter(s);
    TrailOfRest(s);
    assert [s[0]] + (Dashed(Words(s[1..])) + Trail(s)) == [s[0]] + Dashed(Words(s[1..])) + Trail(s);
  }

  lemma OneWordTrail(s: string)
    requires |s| > 1 && Alphanumeric(s[0]) && Words(s[1..]) == []
    ensures Words(s) != [] && Trail(s) == "-" && Trail(s[1..]) == "" && Dashed(Words(s[1..])) == ""
  {
    WordsLetter(s);
    NoWordsNoEnd(s[1..]);
    hide Words;
  }

  lemma LastOfWord(s: string, inRun: bool)
    requires |s| > 1 && Alphanumeric(s[0]) && !Alphanumeric(s[1])
    requires Collapse(s[1..], false) == "-" + Dashed(Words(s[1..])) + Trail(s[1..])
    ensures Collapse(s, inRun) == Dashed(Words(s)) + Trail(s)
  {
    hide *;
    CollapseLetter(s, inRun);
    WordsLetter(s);
    if Words(s[1..]) == [] {
      OneWordTrail(s);
    } else {
      TrailOfRest(s);
      assert [s[0]] + ("-" + Dashed(Words(s[1..])) + Trail(s)) == [s[0]] + "-" + Dashed(Words(s[1..])) + Trail(s);
    }
  }

  lemma {:induction false} CollapsedIsDashed(s: string, inRun: bool)
    ensures Collapse(s, inRun) == Lead(s, inRun) + Dashed(Words(s)) + Trail(s)
  {
    if s == "" {
    } else if !Alphanumeric(s[0]) {
      CollapsedIsDashed(s[1..], true);
      GapStep(s, inRun);
    } else if |s| == 1 {
      assert s[1..] == "" && s == [s[0]] && Words(s) == [[s[0]]] + [] && IsAlnum(s[0]);
    } else {
      CollapsedIsDashed(s[1..], false);
      hide *;
      if Alphanumeric(s[1]) { LetterCase(s, inRun); } else { GapCase(s, inRun); }
    }
  }

  lemma NoLead(s: string, inRun: bool, d: string, t: string)
    requires s != "" && Alphanumeric(s[0])
    ensures Lead(s, inRun) + d + t == d + t
  {
    assert "" + d == d;
  }

  lemma DashLead(s: string)
    requires s != "" && !Alphanumeric(s[0])
    ensures Lead(s, false) == "-"
  {
  }

  lemma LetterCase(s: string, inRun: bool)
    requires |s| > 1 && Alphanumeric(s[0]) && Alphanumeric(s[1])
    requires Collapse(s[1..], false) == Lead(s[1..], false) + Dashed(Words(s[1..])) + Trail(s[1..])
    ensures Collapse(s, inRun) == Lead(s, inRun) + Dashed(Words(s)) + Trail(s)
  {
    hide *;
    assert s[1..][0] == s[1];
    NoLead(s[1..], false, Dashed(Words(s[1..])), Trail(s[1..]));
    NoLead(s, inRun, Dashed(Words(s)), Trail(s));
    LetterStep(s, inRun);
  }

  lemma GapCase(s: string, inRun: bool)
    requires |s| > 1 && Alphanumeric(s[0]) && !Alphanumeric(s[1])
    requires Collapse(s[1..], false) == Lead(s[1..], false) + Dashed(Words(s[1..])) + Trail(s[1..])
    ensures Collapse(s, inRun) == Lead(s, inRun) + Dashed(Words(s)) + Trail(s)
  {
    hide *;
    assert s[1..][0] == s[1];
    DashLead(s[1..]);
    NoLead(s, inRun, Dashed(Words(s)), Trail(s));
    LastOfWord(s, inRun);
  }

  lemma {:induction false} NoWordsNoEnd(s: string)
    requires s != "" && Words(s) == []
    ensures !Alphanumeric(s[|s| - 1])
  {
    if |s| > 1 { NoWordsNoEnd(s[1..]); }
  }

  lemma {:induction false} DashedEnds(ws: seq<string>)
    requires forall w <- ws :: w != "" && forall i :: 0 <= i < |w| ==> Alphanumeric(w[i])
    ensures ws != [] ==> Dashed(ws) != "" && Alphanumeric(Dashed(ws)[0]) && Alphanumeric(Dashed(ws)[|Dashed(ws)| - 1])
  {
    if ws != [] {
      assert ws[0] in ws;
      if |ws| > 1 {
        assert forall w <- ws[1..] :: w in ws;
        DashedEnds(ws[1..]);
      }
    }
  }

  lemma Stripped(lead: string, s: string, trail: string)
    requires (lead == "" || lead == "-") && (trail == "" || trail == "-") && (s == "" ==> trail == "")
    requires s != "" ==> Alphanumeric(s[0]) && Alphanumeric(s[|s| - 1])
    ensures RStrip(LStrip(lead + s + trail)) == s
  {
    var t := lead + s + trail;
    if lead == "" { assert t == s + trail; } else { assert t[1..] == s + trail; }
    assert LStrip(s + trail) == s + trail;
    if trail == "" { assert s + trail == s; } else { assert (s + trail)[..|s|] == s; }
  }

  /** The lower-case letter for an upper-case one. */
  function Lowered(c: char): char { if 'A' <= c <= 'Z' then (c as int + 32) as char else c }

  lemma LowerExactly(s: string)
    ensures |Lower(s)| == |s| && forall i :: 0 <= i < |s| ==> Lower(s)[i] == Lowered(s[i])
  {
  }

  lemma StrippedWords(text: string)
    ensures RStrip(LStrip(Collapse(text, false))) == Dashed(Words(text))
  {
    CollapsedIsDashed(text, false);
    DashedEnds(Words(text));
    hide Collapse;
    hide Words;
    hide Dashed;
    Stripped(Lead(text, false), Dashed(Words(text)), Trail(text));
  }

  /** A slug is the words of the text in lower case, a dash between any two, cut at 24 characters. */
  lemma SlugIsWords(text: string)
    ensures var s, d := Slug(text), Dashed(Words(text));
            && |s| == (if |d| <= 24 then |d| else 24)
            && forall i :: 0 <= i < |s| ==> s[i] == Lowered(d[i])
  {
    hide Words;
    hide Dashed;
    StrippedWords(text);
    LowerExactly(Dashed(Words(text)));
  }

  // ------------------------------------------------------------------ given ids

  /** The value under a key, if it is there and not empty. */
  predicate Holds(item: Item, key: string, value: string) {
    value != "" && exists k: nat :: k < |item| && item[k] == (key, value) && forall j :: 0 <= j < k ==> item[j].0 != key
  }

  lemma {:induction false} GetExactly(item: Item, key: string, value: string)
    requires value != ""
    ensures Get(item, key) == value <==> Holds(item, key, value)
  {
    if item != [] {
      var rest := item[1..];
      if item[0].0 == key {
        if item[0].1 == value { assert item[0] == (key, value); }
      } else {
        GetExactly(rest, key, value);
        if Holds(rest, key, value) {
          var k: nat :| k < |rest| && rest[k] == (key, value) && forall j :: 0 <= j < k ==> rest[j].0 != key;
          assert item[k + 1] == (key, value);
          forall j | 0 <= j < k + 1 ensures item[j].0 != key { if j > 0 { assert item[j] == rest[j - 1]; } }
        }
        if Holds(item, key, value) {
          var k: nat :| k < |item| && item[k] == (key, value) && forall j :: 0 <= j < k ==> item[j].0 != key;
          assert rest[k - 1] == (key, value);
          forall j | 0 <= j < k - 1 ensures rest[j].0 != key { assert rest[j] == item[j + 1]; }
        }
      }
    }
  }

  /** What an item is called: its name, or without one its first value, whatever the key. */
  ghost predicate CalledAs(item: Item, name: string) {
    || Holds(item, "name", name)
    || ((forall v :: !Holds(item, "name", v)) && name == if item == [] then "" else item[0].1)
  }

  lemma CalledExactly(item: Item, name: string)
    ensures NameText(item) == name <==> CalledAs(item, name)
  {
    var own := Get(item, "name");
    if own != "" { GetExactly(item, "name", own); }
    forall v | v != "" ensures Get(item, "name") == v <==> Holds(item, "name", v) { GetExactly(item, "name", v); }
  }

  /** Some item came with this id, or an earlier one was given it. */
  ghost predicate InUse(items: seq<Item>, ids: seq<string>, i: nat, id: string)
    requires i <= |ids|
  {
    (exists j :: 0 <= j < |items| && Holds(items[j], "id", id)) || exists j :: 0 <= j < i && ids[j] == id
  }

  lemma ExplicitExactly(items: seq<Item>, id: string)
    requires id != ""
    ensures id in ExplicitIds(items) <==> exists j :: 0 <= j < |items| && Holds(items[j], "id", id)
  {
    forall j | 0 <= j < |items| ensures Holds(items[j], "id", id) <==> Get(items[j], ID_KEY) == id {
      GetExactly(items[j], "id", id);
    }
    hide Holds;
    hide Get;
  }

  lemma InUseExactly(items: seq<Item>, i: nat, id: string)
    requires i < |items| && id != ""
    ensures InUse(items, Ids(items, ExplicitIds(items)), i, id)
       <==> id in ExplicitIds(items) + IdSet(Ids(items[..i], ExplicitIds(items)))
  {
    var ids, before := Ids(items, ExplicitIds(items)), Ids(items[..i], ExplicitIds(items));
    IdAt(items, ExplicitIds(items), i);
    ExplicitExactly(items, id);
    hide Holds;
    hide Ids;
    hide ExplicitIds;
    assert ids[..i] == before;
    assert id in IdSet(before) <==> exists j :: 0 <= j < i && ids[j] == id by {
      if j :| 0 <= j < i && ids[j] == id { assert before[j] == id; }
      if id in IdSet(before) {
        var j :| 0 <= j < |before| && before[j] == id;
        assert ids[j] == id;
      }
    }
  }

  /** The id a base is given with a number. */
  function Numbered(base: string, n: nat): string { (if base == "" then "item" else base) + "-" + Digits(n) }

  /**
   * What id an item without one is given: the slug of what it is called, if there is one and it is not
   * in use, and else the slug, or the word item, with the smallest number from 2 that is free.
   */
  lemma GivenIdExactly(items: seq<Item>, i: nat, name: string)
    requires i < |items| && (forall v :: !Holds(items[i], "id", v)) && CalledAs(items[i], name)
    ensures var ids := Ids(items, ExplicitIds(items));
            if Slug(name) != "" && !InUse(items, ids, i, Slug(name)) then ids[i] == Slug(name)
            else exists n: nat ::
              && n >= 2 && ids[i] == Numbered(Slug(name), n) && !InUse(items, ids, i, Numbered(Slug(name), n))
              && forall k: nat :: 2 <= k < n ==> InUse(items, ids, i, Numbered(Slug(name), k))
  {
    var taken := ExplicitIds(items);
    var ids, seen, base := Ids(items, taken), taken + IdSet(Ids(items[..i], taken)), Slug(name);
    CalledExactly(items[i], name);
    IdAt(items, taken, i);
    if Get(items[i], ID_KEY) != "" { GetExactly(items[i], "id", Get(items[i], ID_KEY)); }
    assert ids[i] == Choose(seen, base);
    if base != "" { InUseExactly(items, i, base); }
    forall k: nat ensures InUse(items, ids, i, Numbered(base, k)) <==> Suffixed(base, k) in seen {
      InUseExactly(items, i, Suffixed(base, k));
    }
    if !(base != "" && base !in seen) {
      var n := FreeSuffix(seen, base, 2);
      assert ids[i] == Numbered(base, n);
    }
  }
}
