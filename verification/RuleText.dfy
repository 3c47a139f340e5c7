/**
 * Rule left-hand sides: printing the `when` mapping as CLIPS patterns, reading such
 * text back, and finding the owning node in it.
 */
module RuleText {
  import opened Wrappers

  const NODE_KEY := "node"

  predicate IsAlnum(c: char) { 'a' <= c <= 'z' || 'A' <= c <= 'Z' || '0' <= c <= '9' }

  predicate NodeChar(c: char) { IsAlnum(c) || c == '_' || c == '.' || c == '-' }

  predicate FieldChar(c: char) { IsAlnum(c) || c == '_' || c == '-' }

  predicate FieldStart(c: char) { FieldChar(c) && c != '-' && !('0' <= c <= '9') }

  predicate IsSpace(c: char) { c == ' ' || '\t' <= c <= '\r' }

  predicate AllIn(s: string, p: char -> bool) { forall i :: 0 <= i < |s| ==> p(s[i]) }

  /** `$` in a Python pattern also matches just before one final newline. */
  function Chomp(s: string): string {
    if s != [] && s[|s| - 1] == '\n' then s[..|s| - 1] else s
  }

  predicate EndsInNewline(s: string) { s != [] && s[|s| - 1] == '\n' }

  /** A node reference: letters, digits, `_`, `.` and `-`; the end anchor lets one newline pass. */
  predicate ValidNode(s: string) { Chomp(s) != [] && AllIn(Chomp(s), NodeChar) }

  /** A field name: a letter or `_`, then letters, digits, `_` and `-`, and perhaps one newline. */
  predicate ValidField(s: string) { Chomp(s) != [] && FieldStart(Chomp(s)[0]) && AllIn(Chomp(s), FieldChar) }

  // ------------------------------------------------------------------- printing

  /** A condition value: a string, another scalar as it is printed, or anything else. */
  datatype Value = Text(text: string) | Scalar(text: string) | NonScalar

  datatype Cond = Cond(key: string, value: Value)

  datatype When = Raw(text: string) | Sugar(conds: seq<Cond>)

  datatype Error = EmptyMapping | BadNode | BadField(key: string) | BadValue(key: string)

  datatype Printed<+T> = Ok(value: T) | Err(error: Error)

  /** Every `c` in the string is replaced. */
  function Replace(s: string, c: char, by_: string): string {
    if s == [] then [] else (if s[0] == c then by_ else [s[0]]) + Replace(s[1..], c, by_)
  }

  function ClipsString(s: string): string {
    Replace(Replace(s, '\\', "\\\\"), '\"', "\\\"")
  }

  function Mangle(key: string): string { Replace(key, '.', "-") }

  function NodePattern(ref: string): string { "(node-id (id " + ref + "))" }

  function FieldPattern(field: string, value: string): string {
    "(" + field + " (value \"" + ClipsString(value) + "\"))"
  }

  /** The value under a key of the sugar mapping, if it is there. */
  function Lookup(conds: seq<Cond>, key: string): Option<Value> {
    if conds == [] then None
    else if conds[0].key == key then Some(conds[0].value)
    else Lookup(conds[1..], key)
  }

  /** The pattern of one condition; the node key contributes none here. */
  function CondPattern(c: Cond): Printed<seq<string>> {
    if c.key == NODE_KEY then Ok([])
    else if !ValidField(Mangle(c.key)) then Err(BadField(c.key))
    else if c.value.NonScalar? then Err(BadValue(c.key))
    else Ok([FieldPattern(Mangle(c.key), c.value.text)])
  }

  function Prepend(own: Printed<seq<string>>, rest: Printed<seq<string>>): Printed<seq<string>> {
    if own.Err? then own else if rest.Err? then rest else Ok(own.value + rest.value)
  }

  /** The conditions in order; the first bad one is reported. */
  function FieldPatterns(conds: seq<Cond>): Printed<seq<string>> {
    if conds == [] then Ok([]) else Prepend(CondPattern(conds[0]), FieldPatterns(conds[1..]))
  }

  /** The patterns, a space between any two. */
  function Join(ps: seq<string>): string {
    if ps == [] then "" else if |ps| == 1 then ps[0] else ps[0] + " " + Join(ps[1..])
  }

  function Patterns(conds: seq<Cond>): Printed<seq<string>> {
    if conds == [] then Err(EmptyMapping)
    else
      match Lookup(conds, NODE_KEY)
      case None => FieldPatterns(conds)
      case Some(v) =>
        if !v.Text? || !ValidNode(v.text) then Err(BadNode)
        else
          match FieldPatterns(conds)
          case Err(e) => Err(e)
          case Ok(ps) => Ok([NodePattern(v.text)] + ps)
  }

  function PrintWhen(when: When): Printed<string> {
    match when
    case Raw(text) => Ok(text)
    case Sugar(conds) =>
      match Patterns(conds)
      case Err(e) => Err(e)
      case Ok(ps) => Ok(Join(ps))
  }

  method CompileWhen(when: When) returns (r: Printed<string>)
    ensures r == PrintWhen(when)
  {
    if when.Raw? { return Ok(when.text); }
    var conds := when.conds;
    if conds == [] { return Err(EmptyMapping); }
    var patterns: seq<string> := [];
    var ref := Lookup(conds, NODE_KEY);
    if ref.Some? {
      if !ref.value.Text? || !ValidNode(ref.value.text) { return Err(BadNode); }
      patterns := [NodePattern(ref.value.text)];
    }
    ghost var head := patterns;
    assert conds[0..] == conds;
    for i := 0 to |conds|
      invariant PrintedSo(conds, i, head, patterns)
    {
      var Cond(key, value) := conds[i];
      PrintStep(conds, i, head, patterns);
      if key == NODE_KEY { continue; }
      var field := Mangle(key);
      if !ValidField(field) { return Err(BadField(key)); }
      if value.NonScalar? { return Err(BadValue(key)); }
      patterns := patterns + [FieldPattern(field, value.text)];
    }
    assert conds[|conds|..] == [] && patterns + [] == patterns;
    assert head == [] ==> head + FieldPatterns(conds).value == FieldPatterns(conds).value;
    r := Ok(Join(patterns));
  }

  /** After `i` conditions, `patterns` is what the rest has to be appended to. */
  ghost predicate PrintedSo(conds: seq<Cond>, i: nat, head: seq<string>, patterns: seq<string>)
    requires i <= |conds|
  {
    var all, rest := FieldPatterns(conds), FieldPatterns(conds[i..]);
    if rest.Err? then all == rest else all.Ok? && head + all.value == patterns + rest.value
  }

  lemma PrintStep(conds: seq<Cond>, i: nat, head: seq<string>, patterns: seq<string>)
    requires i < |conds| && PrintedSo(conds, i, head, patterns)
    ensures match CondPattern(conds[i])
            case Err(e) => FieldPatterns(conds) == Err(e)
            case Ok(own) => PrintedSo(conds, i + 1, head, patterns + own)
    ensures patterns + [] == patterns
  {
    assert conds[i..][0] == conds[i] && conds[i..][1..] == conds[i + 1..];
    PrependAssociates(patterns, CondPattern(conds[i]), FieldPatterns(conds[i + 1..]));
  }

  lemma PrependAssociates(patterns: seq<string>, own: Printed<seq<string>>, rest: Printed<seq<string>>)
    ensures own.Ok? && rest.Ok? ==> patterns + Prepend(own, rest).value == (patterns + own.value) + rest.value
  {
  }

  // -------------------------------------------------------------------- reading

  /** What a value is read as: a symbol, a number, or a quoted string. */
  datatype Kind = Name | Number | Quoted

  /** One pattern as it is read: a template, its one slot, and the value there. */
  datatype Pattern = Pattern(template: string, slot: string, kind: Kind, value: string)

  predicate IsNumeric(c: char) { '0' <= c <= '9' }

  predicate IsSign(c: char) { c == '+' || c == '-' }

  function Unsigned(s: string): string { if s != [] && IsSign(s[0]) then s[1..] else s }

  predicate Exponent(s: string) {
    s == [] || ((s[0] == 'e' || s[0] == 'E') && Unsigned(s[1..]) != [] && AllIn(Unsigned(s[1..]), IsNumeric))
  }

  /** The engine's integers and floats: digits with an optional sign, decimal point and exponent. */
  predicate Numeral(s: string) {
    var t := Unsigned(s);
    var n := Run(t, IsNumeric);
    if n < |t| && t[n] == '.' then
      var m := Run(t[n + 1..], IsNumeric);
      n + m > 0 && Exponent(t[n + 1..][m..])
    else
      n > 0 && Exponent(t[n..])
  }

  function KindOf(word: string): Kind { if Numeral(word) then Number else Name }

  predicate SymbolChar(c: char) { !IsSpace(c) && c != '(' && c != ')' && c != '\"' }

  function Run(s: string, p: char -> bool): (n: nat)
    ensures n <= |s| && AllIn(s[..n], p) && (n < |s| ==> !p(s[n]))
  {
    if s == [] || !p(s[0]) then 0
    else
      var n := 1 + Run(s[1..], p);
      assert s[..n] == [s[0]] + s[1..][..n - 1];
      n
  }

  function Skip(s: string): string { s[Run(s, IsSpace)..] }

  /** The rest of a string literal after its opening quote: a backslash takes the next character as it is. */
  function ReadString(s: string): (r: Option<(string, string)>)
    ensures r.Some? ==> |r.value.1| < |s|
  {
    if s == [] then None
    else if s[0] == '\"' then Some(("", s[1..]))
    else if s[0] == '\\' then
      if |s| < 2 then None
      else
        match ReadString(s[2..])
        case None => None
        case Some((v, rest)) => Some(([s[1]] + v, rest))
    else
      match ReadString(s[1..])
      case None => None
      case Some((v, rest)) => Some(([s[0]] + v, rest))
  }

  /** An opening parenthesis and the symbol after it; white space behind them is skipped. */
  function ReadOpen(s: string): (r: Option<(string, string)>)
    ensures r.Some? ==> |r.value.1| < |s|
  {
    if s == [] || s[0] != '(' then None
    else
      var n := Run(s[1..], SymbolChar);
      if n == 0 then None else Some((s[1..][..n], Skip(s[1..][n..])))
  }

  function ReadClose(s: string): (r: Option<string>)
    ensures r.Some? ==> |r.value| < |s|
  {
    var t := Skip(s);
    if t == [] || t[0] != ')' then None else Some(t[1..])
  }

  function ReadValue(s: string): (r: Option<(Kind, string, string)>)
    ensures r.Some? ==> |r.value.2| < |s|
  {
    if s != [] && s[0] == '\"' then
      match ReadString(s[1..])
      case None => None
      case Some((v, rest)) => Some((Quoted, v, rest))
    else
      var n := Run(s, SymbolChar);
      if n == 0 then None else Some((KindOf(s[..n]), s[..n], s[n..]))
  }

  /** A slot name and a value in parentheses. */
  function ReadSlot(s: string): (r: Option<(string, Kind, string, string)>)
    ensures r.Some? ==> |r.value.3| < |s|
  {
    match ReadOpen(s)
    case None => None
    case Some((slot, afterSlot)) =>
      match ReadValue(afterSlot)
      case None => None
      case Some((kind, value, afterValue)) =>
        match ReadClose(afterValue)
        case None => None
        case Some(rest) => Some((slot, kind, value, rest))
  }

  function ReadPattern(s: string): (r: Option<(Pattern, string)>)
    ensures r.Some? ==> |r.value.1| < |s|
  {
    match ReadOpen(s)
    case None => None
    case Some((template, inner)) =>
      match ReadSlot(inner)
      case None => None
      case Some((slot, kind, value, afterSlot)) =>
        match ReadClose(afterSlot)
        case None => None
        case Some(rest) => Some((Pattern(template, slot, kind, value), rest))
  }

  /** Parenthesised items, separated by white space, and what follows the last of them. */
  function ReadMany<T>(read: string -> Option<(T, string)>, s: string): Option<(seq<T>, string)>
    decreases |s|
  {
    var t := Skip(s);
    if t == [] || t[0] != '(' then Some(([], t))
    else
      match read(t)
      case None => None
      case Some((x, rest)) =>
        if |rest| >= |t| then None
        else
          match ReadMany(read, rest)
          case None => None
          case Some((xs, end)) => Some(([x] + xs, end))
  }

  function ReadPatterns(s: string): Option<(seq<Pattern>, string)> { ReadMany(ReadPattern, s) }

  // ---------------------------------------------------------- string literals

  function EscapeChar(c: char): string {
    if c == '\\' then "\\\\" else if c == '\"' then "\\\"" else [c]
  }

  lemma {:induction false} ReplaceConcat(a: string, b: string, c: char, by_: string)
    ensures Replace(a + b, c, by_) == Replace(a, c, by_) + Replace(b, c, by_)
  {
    if a == [] {
      assert a + b == b;
    } else {
      assert (a + b)[1..] == a[1..] + b;
      ReplaceConcat(a[1..], b, c, by_);
    }
  }

  lemma ReplaceShort(a: char, b: char, c: char, by_: string)
    ensures Replace([a], c, by_) == if a == c then by_ else [a]
    ensures Replace([a, b], c, by_) == (if a == c then by_ else [a]) + (if b == c then by_ else [b])
  {
    assert [a][1..] == [] && [a, b][1..] == [b] && [b][1..] == [];
    assert Replace([b], c, by_) == (if b == c then by_ else [b]) + [];
  }

  /** The two replacements in a row escape every character on its own. */
  lemma ClipsStringCons(c: char, s: string)
    ensures ClipsString([c] + s) == EscapeChar(c) + ClipsString(s)
  {
    var first := Replace([c], '\\', "\\\\");
    ReplaceConcat([c], s, '\\', "\\\\");
    ReplaceConcat(first, Replace(s, '\\', "\\\\"), '\"', "\\\"");
    ReplaceShort(c, c, '\\', "\\\\");
    ReplaceShort(c, c, '\"', "\\\"");
    ReplaceShort('\\', '\\', '\"', "\\\"");
    assert "\\\\" == ['\\', '\\'];
  }

  /** A printed literal reads back as the value, and closes at the intended quote. */
  lemma {:induction false} StringRoundTrip(v: string, rest: string)
    ensures ReadString(ClipsString(v) + "\"" + rest) == Some((v, rest))
  {
    if v == [] {
      assert ClipsString(v) == "";
      assert (ClipsString(v) + "\"" + rest)[1..] == rest;
    } else {
      var c, w := v[0], v[1..];
      assert v == [c] + w;
      ClipsStringCons(c, w);
      var tail := ClipsString(w) + "\"" + rest;
      var s := ClipsString(v) + "\"" + rest;
      assert s == EscapeChar(c) + tail;
      StringRoundTrip(w, rest);
      if c == '\\' || c == '\"' {
        assert s[0] == '\\' && s[1] == c && s[2..] == tail;
      } else {
        assert s[0] == c && s[1..] == tail;
      }
    }
  }

  // ------------------------------------------------------- reading what is printed

  lemma {:induction false} RunOf(word: string, tail: string, p: char -> bool)
    requires AllIn(word, p) && (tail == [] || !p(tail[0]))
    ensures Run(word + tail, p) == |word|
  {
    var s := word + tail;
    if word == [] {
      assert s == tail;
    } else {
      assert s[0] == word[0] && p(word[0]);
      assert s[1..] == word[1..] + tail;
      RunOf(word[1..], tail, p);
    }
  }

  lemma SkipOver(space: string, tail: string)
    requires AllIn(space, IsSpace) && tail != [] && !IsSpace(tail[0])
    ensures Skip(space + tail) == tail
  {
    RunOf(space, tail, IsSpace);
  }

  lemma {:induction false} RunAfter(word: string, tail: string, p: char -> bool)
    requires AllIn(word, p)
    ensures Run(word + tail, p) == |word| + Run(tail, p)
  {
    var s := word + tail;
    if word == [] {
      assert s == tail;
    } else {
      assert s[0] == word[0] && p(word[0]);
      assert s[1..] == word[1..] + tail;
      RunAfter(word[1..], tail, p);
    }
  }

  /** Leading white space is immaterial. */
  lemma SpaceSkips(space: string, tail: string)
    requires AllIn(space, IsSpace)
    ensures Skip(space + tail) == Skip(tail)
  {
    RunAfter(space, tail, IsSpace);
  }

  lemma ManySkips<T>(read: string -> Option<(T, string)>, space: string, s: string)
    requires AllIn(space, IsSpace)
    ensures ReadMany(read, space + s) == ReadMany(read, s)
  {
    SpaceSkips(space, s);
  }

  /** An opening parenthesis and a word, then space, then the rest. */
  lemma ReadsOpen(word: string, space: string, tail: string)
    requires word != [] && AllIn(word, SymbolChar) && space != [] && AllIn(space, IsSpace)
    requires tail != [] && !IsSpace(tail[0])
    ensures ReadOpen("(" + word + space + tail) == Some((word, tail))
  {
    var s := "(" + word + space + tail;
    assert s[1..] == word + (space + tail);
    assert IsSpace((space + tail)[0]);
    RunOf(word, space + tail, SymbolChar);
    assert s[1..][..|word|] == word && s[1..][|word|..] == space + tail;
    SkipOver(space, tail);
  }

  lemma ReadsClose(space: string, tail: string)
    requires AllIn(space, IsSpace)
    ensures ReadClose(space + (")" + tail)) == Some(tail)
  {
    SkipOver(space, ")" + tail);
    assert (")" + tail)[1..] == tail;
  }

  lemma ReadsSymbol(word: string, tail: string)
    requires word != [] && AllIn(word, SymbolChar) && tail != [] && !SymbolChar(tail[0])
    ensures ReadValue(word + tail) == Some((KindOf(word), word, tail))
  {
    RunOf(word, tail, SymbolChar);
    assert (word + tail)[..|word|] == word && (word + tail)[|word|..] == tail;
    assert (word + tail)[0] == word[0] && SymbolChar(word[0]);
  }

  /** What `Chomp` took off. */
  function Newline(s: string): string { if EndsInNewline(s) then "\n" else "" }

  lemma ChompAndNewline(s: string)
    ensures s == Chomp(s) + Newline(s) && AllIn(Newline(s), IsSpace)
  {
  }

  function Wrap(word: string, space: string, tail: string): string { "(" + word + space + tail }

  lemma SlotComposes(s: string, slot: string, a: string, kind: Kind, value: string, b: string, c: string)
    requires ReadOpen(s) == Some((slot, a)) && ReadValue(a) == Some((kind, value, b)) && ReadClose(b) == Some(c)
    ensures ReadSlot(s) == Some((slot, kind, value, c))
  {
  }

  lemma PatternComposes(s: string, template: string, a: string, slot: string, kind: Kind, value: string, b: string,
                        c: string)
    requires ReadOpen(s) == Some((template, a)) && ReadSlot(a) == Some((slot, kind, value, b)) &&
               ReadClose(b) == Some(c)
    ensures ReadPattern(s) == Some((Pattern(template, slot, kind, value), c))
  {
  }

  lemma ReadsPlainClose(tail: string)
    ensures ReadClose(")" + tail) == Some(tail)
  {
    ReadsClose("", tail);
    assert "" + (")" + tail) == ")" + tail;
  }

  lemma NodeText(name: string, nl: string, rest: string)
    ensures NodePattern(name + nl) + rest == Wrap("node-id", " ", Wrap("id", " ", name + (nl + (")" + (")" + rest)))))
  {
    assert "(node-id (id " == "(node-id " + "(id ";
    assert "))" == ")" + ")";
  }

  lemma FieldText(name: string, nl: string, value: string, rest: string)
    ensures FieldPattern(name + nl, value) + rest
         == Wrap(name, nl + " ", Wrap("value", " ", "\"" + (ClipsString(value) + "\"" + (")" + (")" + rest)))))
  {
    assert " (value \"" == " " + "(value " + "\"";
    assert "\"))" == "\"" + ")" + ")";
  }

  /** A slot holding a bare word. */
  lemma WordSlotReads(slot: string, name: string, nl: string, after: string)
    requires slot != [] && AllIn(slot, SymbolChar) && name != [] && AllIn(name, SymbolChar) && AllIn(nl, IsSpace)
    ensures ReadSlot(Wrap(slot, " ", name + (nl + (")" + after)))) == Some((slot, KindOf(name), name, after))
  {
    var afterName := nl + (")" + after);
    assert afterName[0] == (if nl == [] then ')' else nl[0]);
    ReadsOpen(slot, " ", name + afterName);
    ReadsSymbol(name, afterName);
    ReadsClose(nl, after);
    SlotComposes(Wrap(slot, " ", name + afterName), slot, name + afterName, KindOf(name), name, afterName, after);
  }

  lemma NodeCharsAreSymbols(name: string)
    requires AllIn(name, NodeChar)
    ensures AllIn(name, SymbolChar)
  {
  }

  lemma OuterReads(template: string, space: string, inner: string, slot: string, kind: Kind, value: string,
                   rest: string)
    requires template != [] && AllIn(template, SymbolChar) && space != [] && AllIn(space, IsSpace)
    requires inner != [] && !IsSpace(inner[0])
    requires ReadSlot(inner) == Some((slot, kind, value, ")" + rest))
    ensures ReadPattern(Wrap(template, space, inner)) == Some((Pattern(template, slot, kind, value), rest))
  {
    ReadsOpen(template, space, inner);
    ReadsPlainClose(rest);
    PatternComposes(Wrap(template, space, inner), template, inner, slot, kind, value, ")" + rest, rest);
  }

  lemma WrapStarts(word: string, tail: string)
    ensures Wrap(word, " ", tail) != [] && Wrap(word, " ", tail)[0] == '('
  {
  }

  lemma NodeReads(word: string, slot: string, name: string, nl: string, rest: string)
    requires word != [] && AllIn(word, SymbolChar) && slot != [] && AllIn(slot, SymbolChar)
    requires name != [] && AllIn(name, NodeChar) && AllIn(nl, IsSpace)
    ensures ReadPattern(Wrap(word, " ", Wrap(slot, " ", name + (nl + (")" + (")" + rest))))))
         == Some((Pattern(word, slot, KindOf(name), name), rest))
  {
    var inner := Wrap(slot, " ", name + (nl + (")" + (")" + rest))));
    NodeCharsAreSymbols(name);
    WordSlotReads(slot, name, nl, ")" + rest);
    WrapStarts(slot, name + (nl + (")" + (")" + rest))));
    OuterReads(word, " ", inner, slot, KindOf(name), name, rest);
  }

  /** A slot holding a string literal. */
  lemma QuotedSlotReads(slot: string, value: string, after: string)
    requires slot != [] && AllIn(slot, SymbolChar)
    ensures ReadSlot(Wrap(slot, " ", "\"" + (ClipsString(value) + "\"" + (")" + after))))
              == Some((slot, Quoted, value, after))
  {
    var quoted := ClipsString(value) + "\"" + (")" + after);
    var literal := "\"" + quoted;
    ReadsOpen(slot, " ", literal);
    assert literal[1..] == quoted;
    StringRoundTrip(value, ")" + after);
    ReadsPlainClose(after);
    SlotComposes(Wrap(slot, " ", literal), slot, literal, Quoted, value, ")" + after, after);
  }

  lemma QuotedPatternReads(name: string, space: string, slot: string, value: string, rest: string)
    requires name != [] && AllIn(name, SymbolChar) && space != [] && AllIn(space, IsSpace) && slot != [] &&
               AllIn(slot, SymbolChar)
    ensures ReadPattern(Wrap(name, space, Wrap(slot, " ", "\"" + (ClipsString(value) + "\"" + (")" + (")" + rest))))))
         == Some((Pattern(name, slot, Quoted, value), rest))
  {
    var inner := Wrap(slot, " ", "\"" + (ClipsString(value) + "\"" + (")" + (")" + rest))));
    QuotedSlotReads(slot, value, ")" + rest);
    WrapStarts(slot, "\"" + (ClipsString(value) + "\"" + (")" + (")" + rest))));
    OuterReads(name, space, inner, slot, Quoted, value, rest);
  }

  lemma FieldReads(name: string, nl: string, value: string, rest: string)
    requires name != [] && AllIn(name, SymbolChar) && AllIn(nl, IsSpace)
    ensures ReadPattern(FieldPattern(name + nl, value) + rest) == Some((Pattern(name, "value", Quoted, value), rest))
  {
    FieldText(name, nl, value, rest);
    QuotedPatternReads(name, nl + " ", "value", value, rest);
  }

  /** What follows an item in the joined text. */
  function Tail(ps: seq<string>): string { if ps == [] then "" else " " + Join(ps) }

  lemma JoinTail(p: string, ps: seq<string>)
    ensures Join([p] + ps) == p + Tail(ps)
  {
    assert ([p] + ps)[1..] == ps;
  }

  /** Text after a list of items: white space and then no opening parenthesis. */
  predicate Ends(suffix: string) { Skip(suffix) == [] || Skip(suffix)[0] != '(' }

  /** Joined items followed by `suffix` read as `xs`. */
  predicate ReadsAs<T(==)>(read: string -> Option<(T, string)>, ps: seq<string>, xs: seq<T>, suffix: string) {
    ReadMany(read, Tail(ps) + suffix) == Some((xs, Skip(suffix)))
  }

  lemma NothingReads<T>(read: string -> Option<(T, string)>, suffix: string)
    requires Ends(suffix)
    ensures ReadsAs(read, [], [], suffix) && ReadMany(read, Join([]) + suffix) == Some(([], Skip(suffix)))
  {
    assert "" + suffix == suffix;
  }

  lemma FrontRead<T>(read: string -> Option<(T, string)>, s: string, x: T, rest: string, xs: seq<T>, end: string)
    requires s != [] && s[0] == '(' && read(s) == Some((x, rest)) && |rest| < |s|
    requires ReadMany(read, rest) == Some((xs, end))
    ensures ReadMany(read, s) == Some(([x] + xs, end)) && ReadMany(read, " " + s) == Some(([x] + xs, end))
  {
    SkipOver("", s);
    SkipOver(" ", s);
    assert "" + s == s;
  }

  lemma FrontText(p: string, ps: seq<string>, suffix: string)
    ensures Join([p] + ps) + suffix == p + (Tail(ps) + suffix)
    ensures Tail([p] + ps) + suffix == " " + (p + (Tail(ps) + suffix))
  {
    JoinTail(p, ps);
  }

  /** One more item in front. */
  lemma FrontReads<T>(read: string -> Option<(T, string)>, p: string, x: T, ps: seq<string>, xs: seq<T>, suffix: string)
    requires p != [] && p[0] == '(' && ReadsAs(read, ps, xs, suffix)
    requires read(p + (Tail(ps) + suffix)) == Some((x, Tail(ps) + suffix))
    ensures ReadsAs(read, [p] + ps, [x] + xs, suffix)
    ensures ReadMany(read, Join([p] + ps) + suffix) == Some(([x] + xs, Skip(suffix)))
  {
    hide ReadMany;
    hide Skip;
    FrontText(p, ps, suffix);
    FrontRead(read, p + (Tail(ps) + suffix), x, Tail(ps) + suffix, xs, Skip(suffix));
  }

  /** What reading must recover from the conditions, in order. */
  function ExpectedFields(conds: seq<Cond>): seq<Pattern> {
    if conds == [] then []
    else
      var Cond(key, value) := conds[0];
      (if key == NODE_KEY || value.NonScalar? then [] else [Pattern(Chomp(Mangle(key)), "value", Quoted, value.text)])
      + ExpectedFields(conds[1..])
  }

  function Expected(conds: seq<Cond>): seq<Pattern> {
    (match Lookup(conds, NODE_KEY)
     case Some(Text(ref)) => [Pattern("node-id", "id", KindOf(Chomp(ref)), Chomp(ref))]
     case _ => [])
    + ExpectedFields(conds)
  }

  lemma FieldStarts(field: string, value: string)
    ensures FieldPattern(field, value) != [] && FieldPattern(field, value)[0] == '('
  {
  }

  lemma FieldFront(field: string, value: string, ps: seq<string>, es: seq<Pattern>, suffix: string)
    requires ValidField(field) && ReadsAs(ReadPattern, ps, es, suffix)
    ensures var p, e := FieldPattern(field, value), Pattern(Chomp(field), "value", Quoted, value);
            ReadsAs(ReadPattern, [p] + ps, [e] + es, suffix)
    ensures var p, e := FieldPattern(field, value), Pattern(Chomp(field), "value", Quoted, value);
            ReadPatterns(Join([p] + ps) + suffix) == Some(([e] + es, Skip(suffix)))
  {
    ChompAndNewline(field);
    FieldStarts(field, value);
    hide FieldPattern;
    hide ReadMany;
    hide Tail;
    hide Join;
    FieldReads(Chomp(field), Newline(field), value, Tail(ps) + suffix);
    FrontReads(ReadPattern, FieldPattern(field, value), Pattern(Chomp(field), "value", Quoted, value), ps, es, suffix);
  }

  lemma NodeFront(ref: string, ps: seq<string>, es: seq<Pattern>, suffix: string)
    requires ValidNode(ref) && ReadsAs(ReadPattern, ps, es, suffix)
    ensures ReadPatterns(Join([NodePattern(ref)] + ps) + suffix)
         == Some(([Pattern("node-id", "id", KindOf(Chomp(ref)), Chomp(ref))] + es, Skip(suffix)))
  {
    NodePatternReads(ref, Tail(ps) + suffix);
    NodeStarts(ref);
    hide NodePattern;
    hide ReadPattern;
    hide ReadMany;
    hide Tail;
    hide Join;
    hide Chomp;
    FrontReads(ReadPattern, NodePattern(ref), Pattern("node-id", "id", KindOf(Chomp(ref)), Chomp(ref)), ps, es, suffix);
  }

  lemma NodeStarts(ref: string)
    ensures NodePattern(ref) != [] && NodePattern(ref)[0] == '('
  {
  }

  lemma NodePatternReads(ref: string, rest: string)
    requires ValidNode(ref)
    ensures ReadPattern(NodePattern(ref) + rest)
         == Some((Pattern("node-id", "id", KindOf(Chomp(ref)), Chomp(ref)), rest))
  {
    var word, slot := "node-id", "id";
    assert AllIn(word, SymbolChar) && AllIn(slot, SymbolChar);
    ChompAndNewline(ref);
    NodeText(Chomp(ref), Newline(ref), rest);
    hide ReadPattern;
    hide Wrap;
    NodeReads(word, slot, Chomp(ref), Newline(ref), rest);
  }

  lemma {:induction false} FieldsReadBack(conds: seq<Cond>, suffix: string)
    requires FieldPatterns(conds).Ok? && Ends(suffix)
    ensures ReadsAs(ReadPattern, FieldPatterns(conds).value, ExpectedFields(conds), suffix)
    ensures ReadPatterns(Join(FieldPatterns(conds).value) + suffix) == Some((ExpectedFields(conds), Skip(suffix)))
  {
    if conds == [] {
      NothingReads(ReadPattern, suffix);
    } else {
      FieldsReadBack(conds[1..], suffix);
      var Cond(key, value) := conds[0];
      var rest, es := FieldPatterns(conds[1..]).value, ExpectedFields(conds[1..]);
      if key == NODE_KEY {
        assert [] + rest == rest && [] + es == es;
      } else {
        FieldFront(Mangle(key), value.text, rest, es, suffix);
      }
    }
  }

  /**
   * Round trip: reading a printed mapping, whatever ends it, gives the node reference
   * first and then every field and value, in order.
   */
  lemma PrintedReadsBack(conds: seq<Cond>, suffix: string)
    requires PrintWhen(Sugar(conds)).Ok? && Ends(suffix)
    ensures ReadPatterns(PrintWhen(Sugar(conds)).value + suffix) == Some((Expected(conds), Skip(suffix)))
  {
    FieldsReadBack(conds, suffix);
    var ps, es := FieldPatterns(conds).value, ExpectedFields(conds);
    match Lookup(conds, NODE_KEY) {
      case None => assert [] + es == es;
      case Some(v) => NodeFront(v.text, ps, es, suffix);
    }
  }

  lemma ChompExactly(s: string)
    ensures Chomp(s) == s <==> !EndsInNewline(s)
  {
    if EndsInNewline(s) { assert |Chomp(s)| < |s|; }
  }

  /**
   * The node reference itself is recovered, as a name, exactly if it does not end in a
   * newline, which Python's pattern lets through and the reader takes for white space,
   * and is not a numeral, which the reader takes for a number.
   */
  lemma NodeRecoveredExactly(conds: seq<Cond>, ref: string)
    requires PrintWhen(Sugar(conds)).Ok? && Lookup(conds, NODE_KEY) == Some(Text(ref))
    ensures var read := ReadPatterns(PrintWhen(Sugar(conds)).value);
            && read.Some? && read.value.0 != []
            && (read.value.0[0] == Pattern("node-id", "id", Name, ref) <==> !EndsInNewline(ref) && !Numeral(ref))
  {
    var text := PrintWhen(Sugar(conds)).value;
    PrintedReadsBack(conds, "");
    assert text + "" == text;
    ChompExactly(ref);
  }

  /** The conditions themselves, names as they are spelled. */
  function PlainFields(conds: seq<Cond>): seq<Pattern> {
    if conds == [] then []
    else
      var Cond(key, value) := conds[0];
      (if key == NODE_KEY || value.NonScalar? then [] else [Pattern(key, "value", Quoted, value.text)])
      + PlainFields(conds[1..])
  }

  lemma {:induction false} MangleKeepsEnd(key: string)
    ensures |Mangle(key)| == |key| && (EndsInNewline(Mangle(key)) <==> EndsInNewline(key))
  {
    if key != [] {
      MangleKeepsEnd(key[1..]);
      var own := if key[0] == '.' then "-" else [key[0]];
      assert Mangle(key) == own + Mangle(key[1..]) && |own| == 1;
    }
  }

  lemma {:induction false} MangleExactly(key: string)
    ensures Mangle(key) == key <==> '.' !in key
  {
    if key != [] {
      MangleExactly(key[1..]);
      var own := if key[0] == '.' then "-" else [key[0]];
      assert Mangle(key) == own + Mangle(key[1..]) && key == [key[0]] + key[1..];
      assert Mangle(key)[0] == own[0] && Mangle(key)[1..] == Mangle(key[1..]);
    }
  }

  /** A field name comes back as it was spelled. */
  lemma NameKeptExactly(key: string)
    ensures Chomp(Mangle(key)) == key <==> !EndsInNewline(key) && '.' !in key
  {
    MangleKeepsEnd(key);
    MangleExactly(key);
    ChompExactly(Mangle(key));
    if EndsInNewline(Mangle(key)) { assert |Chomp(Mangle(key))| < |key|; }
  }

  lemma ConsApart<T>(a: T, s: seq<T>, b: T, t: seq<T>)
    ensures [a] + s == [b] + t <==> a == b && s == t
  {
    assert ([a] + s)[0] == a && ([b] + t)[0] == b && ([a] + s)[1..] == s && ([b] + t)[1..] == t;
  }

  /** A field condition whose key ends in a newline or has a dot, which prints as a dash. */
  predicate Blurred(c: Cond) { c.key != NODE_KEY && !c.value.NonScalar? && (EndsInNewline(c.key) || '.' in c.key) }

  /** Every field name and value is recovered exactly if no field name is blurred. */
  lemma {:induction false} FieldsRecoveredExactly(conds: seq<Cond>)
    ensures ExpectedFields(conds) == PlainFields(conds) <==> forall c <- conds :: !Blurred(c)
    ensures |ExpectedFields(conds)| == |PlainFields(conds)|
  {
    if conds != [] {
      FieldsRecoveredExactly(conds[1..]);
      assert conds == [conds[0]] + conds[1..];
      var Cond(key, value) := conds[0];
      var es, ps := ExpectedFields(conds[1..]), PlainFields(conds[1..]);
      assert (forall c <- conds :: !Blurred(c)) <==> !Blurred(conds[0]) && forall c <- conds[1..] :: !Blurred(c);
      if key == NODE_KEY || value.NonScalar? {
        assert [] + es == es && [] + ps == ps;
      } else {
        NameKeptExactly(key);
        ConsApart(Pattern(Chomp(Mangle(key)), "value", Quoted, value.text), es,
                  Pattern(key, "value", Quoted, value.text), ps);
      }
    }
  }

  lemma TextReads(conds: seq<Cond>)
    requires PrintWhen(Sugar(conds)).Ok?
    ensures ReadPatterns(PrintWhen(Sugar(conds)).value) == Some((Expected(conds), ""))
  {
    hide PrintWhen;
    hide ReadPatterns;
    hide Expected;
    var text := PrintWhen(Sugar(conds)).value;
    PrintedReadsBack(conds, "");
    assert text + "" == text && Skip("") == "";
  }

  lemma NodeExpected(conds: seq<Cond>, ref: string)
    requires Lookup(conds, NODE_KEY) == Some(Text(ref))
    ensures Expected(conds) == [Pattern("node-id", "id", KindOf(Chomp(ref)), Chomp(ref))] + ExpectedFields(conds)
  {
  }

  lemma NodeKeptExactly(ref: string)
    ensures Pattern("node-id", "id", KindOf(Chomp(ref)), Chomp(ref)) == Pattern("node-id", "id", Name, ref)
       <==> !EndsInNewline(ref) && !Numeral(ref)
  {
    ChompExactly(ref);
  }

  /** The whole mapping reads back as it was written exactly if no field and no node name is blurred. */
  lemma MappingRecoveredExactly(conds: seq<Cond>, ref: string)
    requires PrintWhen(Sugar(conds)).Ok? && Lookup(conds, NODE_KEY) == Some(Text(ref))
    ensures var read := ReadPatterns(PrintWhen(Sugar(conds)).value);
            read == Some(([Pattern("node-id", "id", Name, ref)] + PlainFields(conds), ""))
            <==> !EndsInNewline(ref) && !Numeral(ref) && forall c <- conds :: !Blurred(c)
  {
    var e, p := Pattern("node-id", "id", KindOf(Chomp(ref)), Chomp(ref)), Pattern("node-id", "id", Name, ref);
    TextReads(conds);
    NodeExpected(conds, ref);
    NodeKeptExactly(ref);
    hide *;
    FieldsRecoveredExactly(conds);
    ConsApart(e, ExpectedFields(conds), p, PlainFields(conds));
  }

  // ------------------------------------------------------------------- backfill

  predicate StartsWith(s: string, prefix: string) { |prefix| <= |s| && s[..|prefix|] == prefix }

  /** A non-empty run of characters of one kind. */
  function Some1(s: string, p: char -> bool): (r: Option<(string, string)>)
  {
    var n := Run(s, p);
    if n == 0 then None else Some((s[..n], s[n..]))
  }

  /** White space and a closing parenthesis. */
  function SpaceClose(s: string): Option<string> {
    var t := Skip(s);
    if t != [] && t[0] == ')' then Some(t[1..]) else None
  }

  /** A node pattern at the start of `s`: the name it captures. */
  function MatchAt(s: string): Option<string> {
    if !StartsWith(s, "(node-id") then None
    else
      match Some1(s[8..], IsSpace)
      case None => None
      case Some((_, t)) =>
        if !StartsWith(t, "(id") then None
        else
          match Some1(t[3..], IsSpace)
          case None => None
          case Some((_, u)) =>
            CaptureAt(u)
  }

  /** The leftmost node pattern anywhere in `s`. */
  function Search(s: string): Option<string> {
    if MatchAt(s).Some? then MatchAt(s)
    else if s == [] then None
    else Search(s[1..])
  }

  function WhenNodeRef(when: When): Option<string> {
    match when
    case Raw(_) => None
    case Sugar(conds) =>
      match Lookup(conds, NODE_KEY)
      case Some(Text(ref)) => Some(ref)
      case _ => None
  }

  lemma SpacesThen(space: string, tail: string)
    requires space != [] && AllIn(space, IsSpace) && tail != [] && !IsSpace(tail[0])
    ensures Some1(space + tail, IsSpace) == Some((space, tail))
  {
    RunOf(space, tail, IsSpace);
  }

  /** The end of a node pattern: the name and two closing parentheses. */
  function CaptureAt(u: string): Option<string> {
    match Some1(u, NodeChar)
    case None => None
    case Some((name, v)) =>
      match SpaceClose(v)
      case None => None
      case Some(w) => if SpaceClose(w).Some? then Some(name) else None
  }

  lemma Captures(name: string, v: string, w: string)
    requires name != [] && AllIn(name, NodeChar) && v != [] && !NodeChar(v[0])
    requires SpaceClose(v) == Some(w) && SpaceClose(w).Some?
    ensures CaptureAt(name + v) == Some(name)
  {
    RunOf(name, v, NodeChar);
    assert (name + v)[..|name|] == name && (name + v)[|name|..] == v;
  }

  lemma Closes(nl: string, w: string)
    requires AllIn(nl, IsSpace)
    ensures SpaceClose(nl + (")" + w)) == Some(w)
    ensures SpaceClose(")" + w) == Some(w)
  {
    assert (")" + w)[1..] == w && "" + (")" + w) == ")" + w;
    SkipOver(nl, ")" + w);
    SkipOver("", ")" + w);
  }

  lemma PrefixOf(prefix: string, tail: string)
    ensures StartsWith(prefix + tail, prefix) && (prefix + tail)[|prefix|..] == tail
  {
  }

  lemma Shape(u: string, name: string)
    requires u != [] && !IsSpace(u[0]) && CaptureAt(u) == Some(name)
    ensures MatchAt("(node-id" + (" " + ("(id" + (" " + u)))) == Some(name)
  {
    var t := "(id" + (" " + u);
    PrefixOf("(node-id", " " + t);
    SpacesThen(" ", t);
    PrefixOf("(id", " " + u);
    SpacesThen(" ", u);
  }

  lemma WrapText(word: string, tail: string)
    ensures Wrap(word, " ", tail) == ("(" + word) + (" " + tail)
  {
  }

  lemma NodeShape(name: string, nl: string, rest: string)
    ensures NodePattern(name + nl) + rest
         == "(node-id" + (" " + ("(id" + (" " + (name + (nl + (")" + (")" + rest)))))))
  {
    var u := name + (nl + (")" + (")" + rest)));
    NodeText(name, nl, rest);
    WrapText("id", u);
    WrapText("node-id", Wrap("id", " ", u));
    assert "(" + "id" == "(id" && "(" + "node-id" == "(node-id";
  }

  lemma NameEnds(nl: string, w: string)
    requires AllIn(nl, IsSpace)
    ensures var v := nl + (")" + w); v != [] && !NodeChar(v[0])
  {
    assert (nl + (")" + w))[0] == (if nl == [] then ')' else nl[0]);
  }

  lemma NodeCaptured(name: string, nl: string, rest: string)
    requires name != [] && AllIn(name, NodeChar) && AllIn(nl, IsSpace)
    ensures CaptureAt(name + (nl + (")" + (")" + rest)))) == Some(name)
  {
    hide SpaceClose;
    hide CaptureAt;
    var w := ")" + rest;
    Closes(nl, w);
    Closes("", rest);
    NameEnds(nl, w);
    Captures(name, nl + (")" + w), w);
  }

  lemma NodeMatches(name: string, nl: string, rest: string)
    requires name != [] && AllIn(name, NodeChar) && AllIn(nl, IsSpace)
    ensures MatchAt(NodePattern(name + nl) + rest) == Some(name)
  {
    NodeShape(name, nl, rest);
    NodeCaptured(name, nl, rest);
    hide NodePattern;
    hide MatchAt;
    hide CaptureAt;
    Shape(name + (nl + (")" + (")" + rest))), name);
  }

  /**
   * Searching the printed text finds the owner that the mapping declares, exactly if
   * that name does not end in a newline; then the search loses the newline.
   */
  lemma BackfillFindsOwner(conds: seq<Cond>)
    requires PrintWhen(Sugar(conds)).Ok? && Lookup(conds, NODE_KEY).Some?
    ensures var found, ref := Search(PrintWhen(Sugar(conds)).value), WhenNodeRef(Sugar(conds));
            && ref.Some? && found == Some(Chomp(ref.value))
            && (found == ref <==> !EndsInNewline(ref.value))
  {
    var ref := WhenNodeRef(Sugar(conds)).value;
    var ps := Patterns(conds).value;
    var rest := if |ps| == 1 then "" else " " + Join(ps[1..]);
    assert Join(ps) == NodePattern(ref) + rest;
    ChompAndNewline(ref);
    NodeMatches(Chomp(ref), Newline(ref), rest);
    ChompExactly(ref);
  }

  lemma OnlyNode(conds: seq<Cond>, ref: string)
    requires conds == [Cond(NODE_KEY, Text(ref))] && ValidNode(ref)
    ensures PrintWhen(Sugar(conds)).Ok? && Lookup(conds, NODE_KEY) == Some(Text(ref))
    ensures Expected(conds) == [Pattern("node-id", "id", KindOf(Chomp(ref)), Chomp(ref))]
  {
    assert conds[1..] == [] && CondPattern(conds[0]) == Ok([]);
    assert FieldPatterns(conds[1..]) == Ok([]) && FieldPatterns(conds) == Ok([] + []);
    assert ExpectedFields(conds[1..]) == [] && ExpectedFields(conds) == [] + [];
  }

  /** A node name with a newline behind it prints, and is read and found without it. */
  lemma NewlineNodeIsBlurred(conds: seq<Cond>, name: string)
    requires name != [] && AllIn(name, NodeChar) && conds == [Cond(NODE_KEY, Text(name + "\n"))]
    ensures PrintWhen(Sugar(conds)).Ok?
    ensures ReadPatterns(PrintWhen(Sugar(conds)).value) == Some(([Pattern("node-id", "id", KindOf(name), name)], ""))
    ensures Search(PrintWhen(Sugar(conds)).value) == Some(name) && WhenNodeRef(Sugar(conds)) == Some(name + "\n")
  {
    assert Chomp(name + "\n") == name;
    OnlyNode(conds, name + "\n");
    var text := PrintWhen(Sugar(conds)).value;
    assert text + "" == text;
    PrintedReadsBack(conds, "");
    BackfillFindsOwner(conds);
  }

  class OwnedRule {
    const when: When
    var nodeId: Option<string>

    constructor (when: When, nodeId: Option<string>)
      ensures this.when == when && this.nodeId == nodeId
    {
      this.when, this.nodeId := when, nodeId;
    }
  }

  function Candidate(when: When): Option<string> {
    match when
    case Raw(text) => Search(text)
    case Sugar(_) => WhenNodeRef(when)
  }

  /** Declared owners stay; missing ones are filled exactly with a candidate that is a node of the document. */
  method BackfillRuleNodeIds(rules: seq<OwnedRule>, nodeIds: set<string>)
    modifies rules
    ensures forall r <- rules :: r.nodeId ==
              if old(r.nodeId).Some? then old(r.nodeId)
              else if Candidate(r.when).Some? && Candidate(r.when).value in nodeIds then Candidate(r.when)
              else None
  {
    for i := 0 to |rules|
      invariant forall r <- rules :: r.nodeId ==
                  if old(r.nodeId).Some? || r !in rules[..i] then old(r.nodeId)
                  else if Candidate(r.when).Some? && Candidate(r.when).value in nodeIds then Candidate(r.when)
                  else None
    {
      var rule := rules[i];
      assert rules[..i + 1] == rules[..i] + [rule];
      if rule.nodeId.Some? { continue; }
      var candidate;
      match rule.when {
        case Raw(text) => candidate := Search(text);
        case Sugar(_) => candidate := WhenNodeRef(rule.when);
      }
      if candidate.Some? && candidate.value in nodeIds { rule.nodeId := candidate; }
    }
    assert rules[..|rules|] == rules;
  }
}
