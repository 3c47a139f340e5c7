/**
 * The patterns of the left-hand side code, spelled out: which names pass, which mappings print and
 * what is reported of the others, what counts as a numeral, and what the owner search finds.
 */
module WhenTexts {
  import opened Wrappers
  import opened RuleText

  // ---------------------------------------------------------------------- names

  predicate IsLetter(c: char) { 'a' <= c <= 'z' || 'A' <= c <= 'Z' }

  predicate IsFigure(c: char) { '0' <= c <= '9' }

  predicate RefChar(c: char) { IsLetter(c) || IsFigure(c) || c == '_' || c == '.' || c == '-' }

  /** One or more of the characters, and perhaps a newline. */
  ghost predicate NodeRef(s: string) {
    exists name, nl :: s == name + nl && IsRef(name) && (nl == "" || nl == "\n")
  }

  predicate IsRef(name: string) { name != "" && forall i :: 0 <= i < |name| ==> RefChar(name[i]) }

  /** The same characters, the first a letter or an underscore. */
  ghost predicate FieldKey(s: string) {
    exists name, nl ::
      s == name + nl && IsRef(name) && (IsLetter(name[0]) || name[0] == '_') && (nl == "" || nl == "\n")
  }

  lemma ChompOf(name: string, nl: string)
    requires IsRef(name) && (nl == "" || nl == "\n")
    ensures Chomp(name + nl) == name
  {
    assert RefChar(name[|name| - 1]);
    if nl == "" { assert name + nl == name; } else { assert (name + nl)[..|name|] == name; }
  }

  lemma NodeRefExactly(s: string)
    ensures ValidNode(s) <==> NodeRef(s)
  {
    if ValidNode(s) {
      ChompAndNewline(s);
      assert s == Chomp(s) + Newline(s) && IsRef(Chomp(s));
    }
    if NodeRef(s) {
      var name, nl :| s == name + nl && IsRef(name) && (nl == "" || nl == "\n");
      ChompOf(name, nl);
    }
  }

  lemma {:induction false} MangledAt(key: string, i: nat)
    requires i < |key|
    ensures |Mangle(key)| == |key| && Mangle(key)[i] == if key[i] == '.' then '-' else key[i]
  {
    var own := if key[0] == '.' then "-" else [key[0]];
    assert Mangle(key) == own + Mangle(key[1..]);
    if i > 0 { MangledAt(key[1..], i - 1); } else { MangleKeepsEnd(key); }
  }

  lemma MangledName(name: string)
    requires name != "" && !EndsInNewline(name)
    ensures Mangle(name) != "" && Chomp(Mangle(name)) == Mangle(name)
    ensures ValidField(Mangle(name)) <==> IsRef(name) && (IsLetter(name[0]) || name[0] == '_')
  {
    MangleKeepsEnd(name);
    ChompExactly(Mangle(name));
    forall i | 0 <= i < |name| ensures FieldChar(Mangle(name)[i]) <==> RefChar(name[i]) { MangledAt(name, i); }
    MangledAt(name, 0);
  }

  lemma MangledEnd(name: string)
    ensures Mangle(name + "\n") == Mangle(name) + "\n" && Chomp(Mangle(name + "\n")) == Mangle(name)
  {
    ReplaceConcat(name, "\n", '.', "-");
    ReplaceShort('\n', '\n', '.', "-");
  }

  /** Field names are checked after their dots are turned to dashes: a dot passes, but not in front. */
  lemma FieldKeyExactly(key: string)
    ensures ValidField(Mangle(key)) <==> FieldKey(key)
  {
    var name, nl := Chomp(key), Newline(key);
    ChompAndNewline(key);
    if name == "" {
      NoFieldInNothing(key);
    } else if nl == "" {
      MangledName(name);
      assert key == name;
      FieldKeySplits(key);
    } else {
      MangledEnd(name);
      FieldKeySplits(key);
      if EndsInNewline(name) { MangleKeepsEnd(name); } else { MangledName(name); ChompExactly(Mangle(name)); }
    }
  }

  lemma NoFieldInNothing(key: string)
    requires Chomp(key) == ""
    ensures !ValidField(Mangle(key)) && !FieldKey(key)
  {
    MangleKeepsEnd(key);
    FieldKeySplits(key);
  }

  /** What is in front of the newline is what `Chomp` leaves. */
  lemma FieldKeySplits(key: string)
    ensures FieldKey(key) <==> IsRef(Chomp(key)) && (IsLetter(Chomp(key)[0]) || Chomp(key)[0] == '_')
  {
    if FieldKey(key) {
      var name, nl :|
        key == name + nl && IsRef(name) && (IsLetter(name[0]) || name[0] == '_') && (nl == "" || nl == "\n");
      ChompOf(name, nl);
    }
    ChompAndNewline(key);
    assert key == Chomp(key) + Newline(key);
  }

  // ------------------------------------------------------------------- mappings

  /** The condition under the node key; keys of a mapping are unique, and the first one counts. */
  predicate NodeCond(conds: seq<Cond>, i: nat) {
    i < |conds| && conds[i].key == "node" && forall j :: 0 <= j < i ==> conds[j].key != "node"
  }

  ghost predicate NodeFits(conds: seq<Cond>) {
    forall i: nat :: NodeCond(conds, i) ==> conds[i].value.Text? && NodeRef(conds[i].value.text)
  }

  ghost predicate CondFits(c: Cond) { c.key == "node" || (FieldKey(c.key) && !c.value.NonScalar?) }

  lemma {:induction false} LookupExactly(conds: seq<Cond>, v: Value)
    ensures Lookup(conds, NODE_KEY) == Some(v) <==> exists i: nat :: NodeCond(conds, i) && conds[i].value == v
    ensures Lookup(conds, NODE_KEY).None? <==> forall c <- conds :: c.key != "node"
  {
    if conds != [] {
      if conds[0].key == "node" {
        assert NodeCond(conds, 0);
        forall i: nat | NodeCond(conds, i) ensures i == 0 { }
      } else {
        var rest := conds[1..];
        LookupExactly(rest, v);
        assert conds == [conds[0]] + rest;
        if i: nat :| NodeCond(rest, i) && rest[i].value == v { NodeCondCons(conds, i); }
        if i: nat :| NodeCond(conds, i) && conds[i].value == v { NodeCondCons(conds, i - 1); }
      }
    }
  }

  lemma NodeCondCons(conds: seq<Cond>, i: nat)
    requires conds != [] && conds[0].key != "node"
    ensures NodeCond(conds, i + 1) <==> NodeCond(conds[1..], i)
  {
    var rest := conds[1..];
    if NodeCond(rest, i) {
      forall j | 0 <= j < i + 1 ensures conds[j].key != "node" { if j > 0 { assert conds[j] == rest[j - 1]; } }
    }
    if NodeCond(conds, i + 1) {
      forall j | 0 <= j < i ensures rest[j].key != "node" { assert rest[j] == conds[j + 1]; }
    }
  }

  lemma CondExactly(c: Cond)
    ensures CondPattern(c).Ok? <==> CondFits(c)
    ensures CondPattern(c).Err? ==> CondPattern(c).error == if FieldKey(c.key) then BadValue(c.key) else BadField(c.key)
  {
    FieldKeyExactly(c.key);
  }

  /** Condition `i` is the first that does not print. */
  ghost predicate FirstUnfit(conds: seq<Cond>, i: nat) {
    i < |conds| && !CondFits(conds[i]) && forall j :: 0 <= j < i ==> CondFits(conds[j])
  }

  lemma {:induction false} FieldsExactly(conds: seq<Cond>, e: Error)
    ensures FieldPatterns(conds).Ok? <==> forall c <- conds :: CondFits(c)
    ensures FieldPatterns(conds) == Err(e) <==>
              exists i: nat :: FirstUnfit(conds, i) && CondPattern(conds[i]) == Err(e)
  {
    hide CondFits;
    hide CondPattern;
    if conds != [] {
      var rest := conds[1..];
      CondExactly(conds[0]);
      FieldsExactly(rest, e);
      assert conds == [conds[0]] + rest;
      if CondFits(conds[0]) {
        if i: nat :| FirstUnfit(rest, i) && CondPattern(rest[i]) == Err(e) { FirstUnfitCons(conds, i); }
        if i: nat :| FirstUnfit(conds, i) && CondPattern(conds[i]) == Err(e) { FirstUnfitCons(conds, i - 1); }
      } else {
        assert FirstUnfit(conds, 0);
        forall i: nat | FirstUnfit(conds, i) ensures i == 0 { }
      }
    }
  }

  lemma FirstUnfitCons(conds: seq<Cond>, i: nat)
    requires conds != [] && CondFits(conds[0])
    ensures FirstUnfit(conds, i + 1) <==> FirstUnfit(conds[1..], i)
  {
    hide CondFits;
    var rest := conds[1..];
    if FirstUnfit(rest, i) {
      forall j | 0 <= j < i + 1 ensures CondFits(conds[j]) { if j > 0 { assert conds[j] == rest[j - 1]; } }
    }
    if FirstUnfit(conds, i + 1) {
      forall j | 0 <= j < i ensures CondFits(rest[j]) { assert rest[j] == conds[j + 1]; }
    }
  }

  lemma NodeFitsExactly(conds: seq<Cond>)
    ensures NodeFits(conds) <==>
              match Lookup(conds, NODE_KEY) case None => true case Some(v) => v.Text? && ValidNode(v.text)
  {
    match Lookup(conds, NODE_KEY) {
      case None =>
        LookupExactly(conds, NonScalar);
        assert forall i: nat :: i < |conds| ==> conds[i] in conds;
      case Some(v) =>
        LookupExactly(conds, v);
        if v.Text? { NodeRefExactly(v.text); }
        var i: nat :| NodeCond(conds, i) && conds[i].value == v;
        forall j: nat | NodeCond(conds, j) ensures j == i { }
    }
  }

  /** Which mappings print: a node under the node key, if any, and every other key a field with a scalar. */
  lemma PrintsExactly(conds: seq<Cond>)
    ensures PrintWhen(Sugar(conds)).Ok? <==> conds != [] && NodeFits(conds) && forall c <- conds :: CondFits(c)
  {
    NodeFitsExactly(conds);
    FieldsExactly(conds, EmptyMapping);
  }

  /** What is reported of the others: nothing in it, then a bad node, then the first bad key or value. */
  lemma RefusedExactly(conds: seq<Cond>, e: Error)
    ensures PrintWhen(Sugar(conds)) == Err(e) <==>
              match e
              case EmptyMapping => conds == []
              case BadNode => !NodeFits(conds)
              case BadField(key) =>
                NodeFits(conds) && exists i: nat :: FirstUnfit(conds, i) && conds[i].key == key && !FieldKey(key)
              case BadValue(key) =>
                NodeFits(conds) && exists i: nat :: FirstUnfit(conds, i) && conds[i].key == key && FieldKey(key)
  {
    NodeFitsExactly(conds);
    FieldsExactly(conds, e);
    forall i: nat | FirstUnfit(conds, i)
      ensures CondPattern(conds[i]) == Err(if FieldKey(conds[i].key) then BadValue(conds[i].key)
                                           else BadField(conds[i].key))
    {
      CondExactly(conds[i]);
    }
  }

  // ------------------------------------------------------------------- numerals

  predicate Figures(s: string) { forall i :: 0 <= i < |s| ==> IsFigure(s[i]) }

  predicate Sign(s: string) { s == "" || s == "+" || s == "-" }

  predicate Fraction(s: string) { s == "" || (s[0] == '.' && Figures(s[1..])) }

  ghost predicate Power(s: string) {
    s == "" || ((s[0] == 'e' || s[0] == 'E') && exists sign, figures ::
      s[1..] == sign + figures && Sign(sign) && figures != "" && Figures(figures))
  }

  function NumberText(sign: string, whole: string, fraction: string, power: string): string {
    sign + (whole + (fraction + power))
  }

  /** A sign, figures, a point with figures, and an exponent; only figures on one side of the point are needed. */
  ghost predicate IsNumber(s: string) {
    exists sign, whole, fraction, power ::
      && s == NumberText(sign, whole, fraction, power)
      && Sign(sign) && Figures(whole) && Fraction(fraction) && (whole != "" || |fraction| > 1) && Power(power)
  }

  lemma UnsignedOf(sign: string, rest: string)
    requires Sign(sign) && (rest == "" || !IsSign(rest[0]))
    ensures Unsigned(sign + rest) == rest
  {
    if sign == "" { assert sign + rest == rest; } else { assert (sign + rest)[1..] == rest; }
  }

  lemma UnsignedSplits(s: string)
    ensures exists sign :: Sign(sign) && s == sign + Unsigned(s)
  {
    if s != "" && IsSign(s[0]) {
      assert s == [s[0]] + s[1..] && Sign([s[0]]);
    } else {
      var sign := "";
      assert Sign(sign) && s == sign + Unsigned(s);
    }
  }

  lemma PowerExactly(s: string)
    ensures Exponent(s) <==> Power(s)
  {
    if s != "" {
      var rest := s[1..];
      UnsignedSplits(rest);
      if Exponent(s) {
        var sign :| Sign(sign) && rest == sign + Unsigned(rest);
        assert Figures(Unsigned(rest));
      }
      if Power(s) {
        var sign, figures :| rest == sign + figures && Sign(sign) && figures != "" && Figures(figures);
        UnsignedOf(sign, figures);
        assert AllIn(figures, IsNumeric);
      }
    }
  }

  lemma RunSplits(s: string)
    ensures var n := Run(s, IsNumeric); Figures(s[..n]) && s == s[..n] + s[n..]
  {
  }

  lemma FiguresRun(figures: string, rest: string)
    requires Figures(figures) && (rest == "" || !IsFigure(rest[0]))
    ensures Run(figures + rest, IsNumeric) == |figures|
    ensures (figures + rest)[..|figures|] == figures && (figures + rest)[|figures|..] == rest
  {
    RunOf(figures, rest, IsNumeric);
  }

  lemma NumberOf(sign: string, whole: string, fraction: string, power: string)
    requires Sign(sign) && Figures(whole) && Fraction(fraction) && (whole != "" || |fraction| > 1) && Power(power)
    ensures IsNumber(NumberText(sign, whole, fraction, power))
  {
  }

  lemma PlainParts(sign: string, whole: string, power: string)
    ensures NumberText(sign, whole, "", power) == sign + (whole + power)
  {
    assert "" + power == power;
  }

  lemma PlainNumber(sign: string, t: string)
    requires Sign(sign)
    requires var n := Run(t, IsNumeric); n > 0 && Exponent(t[n..])
    ensures IsNumber(sign + t)
  {
    hide Power;
    hide Exponent;
    hide IsNumber;
    hide NumberText;
    var n := Run(t, IsNumeric);
    var whole, power := t[..n], t[n..];
    RunSplits(t);
    PowerExactly(power);
    NumberOf(sign, whole, "", power);
    PlainParts(sign, whole, power);
  }

  lemma PointedParts(t: string, n: nat, m: nat)
    requires n < |t| && t[n] == '.' && m <= |t| - n - 1
    ensures t == t[..n] + (("." + t[n + 1..][..m]) + t[n + 1..][m..])
  {
    var u := t[n + 1..];
    assert u == u[..m] + u[m..];
    assert t[n..] == "." + u;
    assert "." + (u[..m] + u[m..]) == ("." + u[..m]) + u[m..];
  }

  lemma FractionOf(figures: string)
    requires Figures(figures)
    ensures Fraction("." + figures) && |"." + figures| == |figures| + 1
  {
    assert ("." + figures)[1..] == figures;
  }

  lemma PointedNumber(sign: string, t: string, n: nat, m: nat)
    requires Sign(sign) && n < |t| && t[n] == '.' && m <= |t| - n - 1 && n + m > 0
    requires Figures(t[..n]) && Figures(t[n + 1..][..m]) && Exponent(t[n + 1..][m..])
    ensures IsNumber(sign + t)
  {
    hide Power;
    hide Exponent;
    hide IsNumber;
    hide Fraction;
    hide Figures;
    var whole, fraction, power := t[..n], "." + t[n + 1..][..m], t[n + 1..][m..];
    PowerExactly(power);
    FractionOf(t[n + 1..][..m]);
    NumberOf(sign, whole, fraction, power);
    PointedParts(t, n, m);
  }

  lemma NumeralIsNumber(s: string)
    requires Numeral(s)
    ensures IsNumber(s)
  {
    UnsignedSplits(s);
    var t := Unsigned(s);
    var sign :| Sign(sign) && s == sign + t;
    var n := Run(t, IsNumeric);
    RunSplits(t);
    if n < |t| && t[n] == '.' {
      RunSplits(t[n + 1..]);
      hide IsNumber;
      hide Exponent;
      PointedNumber(sign, t, n, Run(t[n + 1..], IsNumeric));
    } else {
      PlainNumber(sign, t);
    }
  }

  lemma PowerStarts(power: string)
    requires Power(power)
    ensures power == "" || power[0] == 'e' || power[0] == 'E'
  {
  }

  lemma PointSplits(fraction: string, power: string)
    requires Fraction(fraction) && fraction != "" && Power(power)
    ensures var u := (fraction + power)[1..]; u == fraction[1..] + power && Run(u, IsNumeric) == |fraction| - 1
    ensures var u := (fraction + power)[1..]; u[|fraction| - 1..] == power
  {
    PowerStarts(power);
    var u := (fraction + power)[1..];
    assert u == fraction[1..] + power;
    FiguresRun(fraction[1..], power);
  }

  /** How a text of figures, a point or none, and an exponent is read. */
  lemma NumeralReads(s: string, t: string, whole: string, fraction: string, power: string)
    requires Unsigned(s) == t && Run(t, IsNumeric) == |whole| && t == whole + (fraction + power)
    requires Fraction(fraction) && (whole != "" || |fraction| > 1) && Exponent(power) && Power(power)
    requires fraction != "" ==> t[|whole| + 1..] == (fraction + power)[1..]
    ensures Numeral(s)
  {
    hide Exponent;
    PowerStarts(power);
    hide Power;
    var n := |whole|;
    if fraction == "" {
      assert fraction + power == power && t[n..] == power;
    } else {
      PointSplits(fraction, power);
      assert t[n] == '.';
    }
  }

  lemma NumberIsNumeral(sign: string, whole: string, fraction: string, power: string)
    requires Sign(sign) && Figures(whole) && Fraction(fraction) && (whole != "" || |fraction| > 1) && Power(power)
    ensures Numeral(NumberText(sign, whole, fraction, power))
  {
    hide Exponent;
    hide Numeral;
    PowerStarts(power);
    PowerExactly(power);
    hide Power;
    var tail := fraction + power;
    var t := whole + tail;
    assert fraction == "" ==> tail == power;
    assert t[0] == if whole != "" then whole[0] else tail[0];
    UnsignedOf(sign, t);
    FiguresRun(whole, tail);
    assert fraction != "" ==> t[|whole| + 1..] == tail[1..];
    NumeralReads(sign + t, t, whole, fraction, power);
  }

  /** What the engine takes for a number, and not for a name. */
  lemma NumeralExactly(s: string)
    ensures Numeral(s) <==> IsNumber(s)
  {
    if Numeral(s) { NumeralIsNumber(s); }
    if IsNumber(s) {
      var sign, whole, fraction, power :|
        s == NumberText(sign, whole, fraction, power) && Sign(sign) && Figures(whole) &&
        Fraction(fraction) && (whole != "" || |fraction| > 1) && Power(power);
      NumberIsNumeral(sign, whole, fraction, power);
    }
  }

  // ----------------------------------------------------------- the owner search

  predicate Blank(s: string) { forall i :: 0 <= i < |s| ==> s[i] == ' ' || '\t' <= s[i] <= '\r' }

  /** A node pattern as it may be spelled, and what follows it. */
  function NodeSpelling(a: string, b: string, name: string, c: string, d: string, rest: string): string {
    "(node-id" + (a + ("(id" + (b + (name + (c + (")" + (d + (")" + rest))))))))
  }

  /** `s` starts with a node pattern for `name`. */
  ghost predicate Spells(s: string, name: string) {
    exists a, b, c, d, rest ::
      && s == NodeSpelling(a, b, name, c, d, rest)
      && IsRef(name) && a != "" && b != "" && Blank(a) && Blank(b) && Blank(c) && Blank(d)
  }

  lemma BlankIsSpace(s: string)
    ensures Blank(s) <==> AllIn(s, IsSpace)
  {
    if Blank(s) { forall i | 0 <= i < |s| ensures IsSpace(s[i]) { } }
  }

  lemma SpaceClosed(s: string)
    requires SpaceClose(s).Some?
    ensures exists c :: Blank(c) && s == c + (")" + SpaceClose(s).value)
  {
    var n := Run(s, IsSpace);
    BlankIsSpace(s[..n]);
    assert s == s[..n] + (")" + s[n..][1..]);
  }

  lemma SpaceSplits(s: string)
    requires Some1(s, IsSpace).Some?
    ensures var (a, t) := Some1(s, IsSpace).value; Blank(a) && a != "" && s == a + t
  {
    BlankIsSpace(s[..Run(s, IsSpace)]);
  }

  /** A name, and two closing parentheses with blanks before them. */
  ghost predicate EndsAs(u: string, name: string, c: string, d: string, rest: string) {
    u == name + (c + (")" + (d + (")" + rest)))) && IsRef(name) && Blank(c) && Blank(d)
  }

  lemma ClosesAs(v: string) returns (c: string, d: string, rest: string)
    requires SpaceClose(v).Some? && SpaceClose(SpaceClose(v).value).Some?
    ensures v == c + (")" + (d + (")" + rest))) && Blank(c) && Blank(d)
  {
    SpaceClosed(v);
    var w := SpaceClose(v).value;
    c :| Blank(c) && v == c + (")" + w);
    SpaceClosed(w);
    rest := SpaceClose(w).value;
    d :| Blank(d) && w == d + (")" + rest);
  }

  lemma NodeCharsAreRef(name: string)
    requires name != "" && AllIn(name, NodeChar)
    ensures IsRef(name)
  {
    forall i | 0 <= i < |name| ensures RefChar(name[i]) { assert NodeChar(name[i]); }
  }

  lemma CaptureSplits(u: string) returns (c: string, d: string, rest: string)
    requires CaptureAt(u).Some?
    ensures EndsAs(u, CaptureAt(u).value, c, d, rest)
  {
    hide SpaceClose;
    var n := Run(u, NodeChar);
    var name, v := u[..n], u[n..];
    NodeCharsAreRef(name);
    c, d, rest := ClosesAs(v);
    assert u == name + v;
  }

  lemma SpellingOf(s: string, a: string, t1: string, b: string, u: string, name: string, c: string, d: string,
                   rest: string)
    requires s == "(node-id" + (a + ("(id" + t1)) && t1 == b + u && EndsAs(u, name, c, d, rest)
    requires a != "" && b != "" && Blank(a) && Blank(b)
    ensures Spells(s, name)
  {
    assert s == NodeSpelling(a, b, name, c, d, rest);
  }

  lemma StartsAs(s: string, prefix: string)
    requires StartsWith(s, prefix)
    ensures s == prefix + s[|prefix|..]
  {
  }

  lemma MatchSpells(s: string)
    requires MatchAt(s).Some?
    ensures Spells(s, MatchAt(s).value)
  {
    hide CaptureAt;
    hide Spells;
    hide EndsAs;
    hide Some1;
    StartsAs(s, "(node-id");
    var s1 := s[8..];
    SpaceSplits(s1);
    var (a, t) := Some1(s1, IsSpace).value;
    StartsAs(t, "(id");
    var t1 := t[3..];
    SpaceSplits(t1);
    var (b, u) := Some1(t1, IsSpace).value;
    var c, d, rest := CaptureSplits(u);
    SpellingOf(s, a, t1, b, u, CaptureAt(u).value, c, d, rest);
  }

  lemma SpelledCaptures(name: string, c: string, d: string, rest: string)
    requires IsRef(name) && Blank(c) && Blank(d)
    ensures CaptureAt(name + (c + (")" + (d + (")" + rest))))) == Some(name)
  {
    var w := d + (")" + rest);
    var v := c + (")" + w);
    BlankIsSpace(c);
    BlankIsSpace(d);
    Closes(c, w);
    Closes(d, rest);
    NameEnds(c, w);
    assert AllIn(name, NodeChar) by {
      forall i | 0 <= i < |name| ensures NodeChar(name[i]) { assert RefChar(name[i]); }
    }
    Captures(name, v, w);
  }

  lemma SpelledMatches(a: string, b: string, name: string, c: string, d: string, rest: string)
    requires IsRef(name) && a != "" && b != "" && Blank(a) && Blank(b) && Blank(c) && Blank(d)
    ensures MatchAt(NodeSpelling(a, b, name, c, d, rest)) == Some(name)
  {
    var u := name + (c + (")" + (d + (")" + rest))));
    var t := "(id" + (b + u);
    BlankIsSpace(a);
    BlankIsSpace(b);
    SpelledCaptures(name, c, d, rest);
    assert u[0] == name[0] && RefChar(name[0]);
    hide CaptureAt;
    hide Some1;
    PrefixOf("(node-id", a + t);
    SpacesThen(a, t);
    PrefixOf("(id", b + u);
    SpacesThen(b, u);
  }

  lemma MatchExactly(s: string, name: string)
    ensures MatchAt(s) == Some(name) <==> Spells(s, name)
  {
    if MatchAt(s) == Some(name) { MatchSpells(s); }
    if Spells(s, name) {
      var a, b, c, d, rest :| s == NodeSpelling(a, b, name, c, d, rest) &&
        IsRef(name) && a != "" && b != "" && Blank(a) && Blank(b) && Blank(c) && Blank(d);
      SpelledMatches(a, b, name, c, d, rest);
    }
  }

  /** A node pattern starts at `i`, and none before. */
  ghost predicate Leftmost(s: string, i: nat, name: string) {
    i <= |s| && Spells(s[i..], name) && forall j: nat, other :: j < i ==> !Spells(s[j..], other)
  }

  lemma LeftmostCons(s: string, i: nat, name: string)
    requires s != "" && forall other :: !Spells(s, other)
    ensures Leftmost(s, i + 1, name) <==> Leftmost(s[1..], i, name)
  {
    hide Spells;
    assert s[0..] == s;
    forall j: nat | j < |s| ensures s[1..][j..] == s[j + 1..] { }
    if i < |s| {
      if Leftmost(s[1..], i, name) {
        forall j: nat, other | j < i + 1 ensures !Spells(s[j..], other) {
          if j > 0 { assert s[1..][j - 1..] == s[j..]; }
        }
      }
      if Leftmost(s, i + 1, name) {
        forall j: nat, other | j < i ensures !Spells(s[1..][j..], other) { assert s[1..][j..] == s[j + 1..]; }
      }
    }
  }

  lemma NotLater(s: string, i: nat, name: string, first: string)
    requires i > 0 && Spells(s[0..], first)
    ensures !Leftmost(s, i, name)
  {
  }

  /** The search finds the leftmost node pattern anywhere in the text, and nothing only where there is none. */
  lemma {:induction false} SearchExactly(s: string, name: string)
    ensures Search(s) == Some(name) <==> exists i: nat :: Leftmost(s, i, name)
    ensures Search(s).None? <==> forall i: nat, other :: i <= |s| ==> !Spells(s[i..], other)
  {
    forall other ensures MatchAt(s) == Some(other) <==> Spells(s, other) { MatchExactly(s, other); }
    assert s[0..] == s;
    hide Spells;
    hide MatchAt;
    if MatchAt(s).Some? {
      assert Spells(s[0..], MatchAt(s).value);
      assert MatchAt(s) == Some(name) ==> Leftmost(s, 0, name);
      forall i: nat | i > 0 ensures !Leftmost(s, i, name) { NotLater(s, i, name, MatchAt(s).value); }
    } else if s != "" {
      var rest := s[1..];
      SearchExactly(rest, name);
      forall i: nat | i <= |rest| ensures rest[i..] == s[i + 1..] { }
      if i: nat :| Leftmost(rest, i, name) { LeftmostCons(s, i, name); }
      if i: nat :| Leftmost(s, i, name) {
        assert i > 0;
        LeftmostCons(s, i - 1, name);
      }
      if forall i: nat, other :: i <= |rest| ==> !Spells(rest[i..], other) {
        forall i: nat, other | i <= |s| ensures !Spells(s[i..], other) {
          if i > 0 { assert rest[i - 1..] == s[i..]; }
        }
      }
    }
  }

  /** The owner proposed for a rule: for a mapping its node, for raw text the leftmost pattern. */
  lemma CandidateExactly(when: When, name: string)
    ensures Candidate(when) == Some(name) <==>
              match when
              case Raw(text) => exists i: nat :: Leftmost(text, i, name)
              case Sugar(conds) => exists i: nat :: NodeCond(conds, i) && conds[i].value == Text(name)
  {
    match when
    case Raw(text) => SearchExactly(text, name);
    case Sugar(conds) =>
      LookupExactly(conds, Text(name));
  }
}
