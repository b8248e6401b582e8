/**
  Postman: the rule table, normalize and tokenize.

  A raw address goes through the nine rules in table order. Each rule records the
  first group of its matches and replaces every occurrence of each match by its
  space-padded marker, then the whitespace is normalised. The residual text is
  split into tokens (optionally character by character outside the markers), the
  recorded matches are written back over the marker tokens, and the result is an
  Address record or the tokens joined by spaces.
*/
module Postman {
  import opened Wrappers
  import opened Text
  import opened Regexes
  import opened Restoration

  /** The Address namedtuple: one list of matches per rule, and the tokens. */
  datatype Address = Address(
    to: seq<string>, kai: seq<string>, ku: seq<string>, mune: seq<string>,
    chome: seq<string>, ban: seq<string>, go: seq<string>, postal: seq<string>,
    endgo: seq<string>, tokens: seq<string>)

  /** What tokenize returns: the record, or with return_str the joined tokens. */
  datatype Output = Record(address: Address) | Joined(text: string)

  /** The order of JAPANESE_ADDRESS_REGEXES. */
  const Rules: seq<Rule> := [To, Kai, Ku, Mune, Chome, Ban, Go, Postal, EndGo]

  /** Every rule appears in the table once. */
  lemma RulesDistinct(e: nat, f: nat)
    requires e < f < |Rules|
    ensures Rules[e] != Rules[f]
  {
  }

  /** The marker each rule leaves, without its padding. */
  function Marker(r: Rule): string
  {
    match r
    case To => "#TO#"
    case Kai => "#KAI#"
    case Ku => "#KU#"
    case Mune => "#MUNE#"
    case Chome => "#CHOME#"
    case Ban => "#BAN#"
    case Go => "#GO#"
    case Postal => "#POSTAL#"
    case EndGo => "#ENDGO#"
  }

  /** The substitute of the rule table: the marker with a space on each side. */
  function Substitute(r: Rule): string
  {
    " " + Marker(r) + " "
  }

  /** A token that starts and ends with '#'. */
  predicate IsMarkerLike(t: string)
  {
    |t| > 0 && t[0] == '#' && t[|t| - 1] == '#'
  }

  /** Markers are '#' and capital letters. */
  lemma MarkerChars(r: Rule)
    ensures IsMarkerLike(Marker(r)) && |Marker(r)| >= 4
    ensures forall i :: 0 <= i < |Marker(r)| ==> Marker(r)[i] == '#' || 'A' <= Marker(r)[i] <= 'Z'
  {
  }

  /** The key recorded for a rule is the stripped substitute, which is the marker,
      and the marker is a single token that begins and ends with '#'. */
  lemma MarkerShape(r: Rule)
    ensures Strip(Substitute(r)) == Marker(r)
    ensures IsToken(Marker(r)) && IsMarkerLike(Marker(r)) && |Marker(r)| >= 4
  {
    MarkerChars(r);
    StripPadded(Marker(r));
  }

  /** The rule a marker belongs to. */
  function RuleOf(m: string): Option<Rule>
  {
    if m == "#TO#" then Some(To)
    else if m == "#KAI#" then Some(Kai)
    else if m == "#KU#" then Some(Ku)
    else if m == "#MUNE#" then Some(Mune)
    else if m == "#CHOME#" then Some(Chome)
    else if m == "#BAN#" then Some(Ban)
    else if m == "#GO#" then Some(Go)
    else if m == "#POSTAL#" then Some(Postal)
    else if m == "#ENDGO#" then Some(EndGo)
    else None
  }

  lemma RuleOfMarker(r: Rule)
    ensures RuleOf(Marker(r)) == Some(r)
  {
  }

  /** Different rules leave different markers. */
  lemma MarkersDistinct(r: Rule, r': Rule)
    requires r != r'
    ensures Marker(r) != Marker(r')
  {
    RuleOfMarker(r);
    RuleOfMarker(r');
  }

  /** The KU pattern begins with the TO marker and a space: it only matches text
      that the TO rule has already rewritten. */
  lemma KuAfterTo()
    ensures WardAnchor == Marker(To) + " "
    ensures Rules[0] == To && Rules[2] == Ku
  {
  }

  // ---------------------------------------------------------------------------
  // normalize

  /** `for match in matches: text = text.replace(match, substitution)` */
  function ReplaceEach(text: string, ms: seq<string>, sub: string): string
    decreases |ms|
  {
    if ms == [] then text else ReplaceEach(ReplaceAll(text, ms[0], sub), ms[1..], sub)
  }

  /** normalize(pattern, substitution, text): the first groups of the matches, and
      the text with every occurrence of each of them replaced by the substitute and
      its whitespace normalised. */
  function Normalized(r: Rule, sub: string, text: string): (seq<string>, string)
  {
    var ms := FindAll(r, text);
    (ms, Collapse(ReplaceEach(text, ms, sub)))
  }

  /** What normalize promises: the matches are findall's first groups, none of them
      is a marker, the returned text is whitespace-normal, keeps every
      non-whitespace character of the rewritten text, and without matches is the
      input with its whitespace normalised (the input itself when that was
      already normal). */
  lemma NormalizedSpec(r: Rule, sub: string, text: string)
    ensures Normalized(r, sub, text).0 == FindAll(r, text)
    ensures forall g :: g in FindAll(r, text) ==> |g| > 0 && g[|g| - 1] != '#'
    ensures var out := Normalized(r, sub, text).1;
      && Normal(out)
      && Squeeze(out) == Squeeze(ReplaceEach(text, FindAll(r, text), sub))
    ensures FindAll(r, text) == [] ==> Normalized(r, sub, text).1 == Collapse(text)
    ensures FindAll(r, text) == [] && Normal(text) ==> Normalized(r, sub, text).1 == text
  {
    var ms := FindAll(r, text);
    ScanGroups(Attempt(r), text, 0);
    CollapseNormal(ReplaceEach(text, ms, sub));
    CollapseKeepsText(ReplaceEach(text, ms, sub));
    if Normal(text) {
      CollapseFixed(text);
    }
  }

  /** findall returns nothing exactly when the rule matches nowhere in the text. */
  lemma FindAllEmpty(r: Rule, text: string)
    ensures FindAll(r, text) == [] <==> forall j :: 0 <= j < |text| ==> MatchAt(r, text, j).None?
  {
    ScanEmpty(Attempt(r), text, 0);
    forall j | 0 <= j < |text|
      ensures Attempt(r)(text, j) == MatchAt(r, text, j)
    {
    }
  }

  /** findall's first group comes from the leftmost index where the rule matches. */
  lemma FindAllFirst(r: Rule, text: string, k: nat)
    requires k < |text| && MatchAt(r, text, k).Some?
    requires forall j :: 0 <= j < k ==> MatchAt(r, text, j).None?
    ensures FindAll(r, text) != [] && FindAll(r, text)[0] == MatchAt(r, text, k).value.group
  {
    var f := Attempt(r);
    forall j | 0 <= j < k
      ensures f(text, j).None?
    {
    }
    assert f(text, k) == MatchAt(r, text, k);
    ScanLeftmost(f, text, 0, k, MatchAt(r, text, k).value);
  }

  /** A text that shares no character with the substitute and is absent from the
      text stays absent through every replacement of the loop. */
  lemma {:induction false} ReplaceEachKeepsAbsent(text: string, ms: seq<string>, sub: string, q: string)
    requires sub != [] && q != [] && Avoids(q, sub)
    requires forall j :: 0 <= j < |ms| ==> ms[j] != []
    requires forall k: nat :: !OccursAt(text, q, k)
    ensures forall k: nat :: !OccursAt(ReplaceEach(text, ms, sub), q, k)
    decreases |ms|
  {
    if ms != [] {
      ReplaceKeepsAbsent(text, ms[0], sub, q);
      ReplaceEachKeepsAbsent(ReplaceAll(text, ms[0], sub), ms[1..], sub, q);
    }
  }

  /** After the loop of lines 44-45 no match occurs in the text any more, provided
      every match is non-empty and shares no character with the substitute (as a
      chome, ban or go match against " #GO# " does). */
  lemma {:induction false} ReplaceEachGone(text: string, ms: seq<string>, sub: string)
    requires sub != []
    requires forall j :: 0 <= j < |ms| ==> ms[j] != [] && Avoids(ms[j], sub)
    ensures forall j, k: nat :: 0 <= j < |ms| ==> !OccursAt(ReplaceEach(text, ms, sub), ms[j], k)
    decreases |ms|
  {
    if ms != [] {
      var t := ReplaceAll(text, ms[0], sub);
      ReplaceGone(text, ms[0], sub);
      ReplaceEachKeepsAbsent(t, ms[1..], sub, ms[0]);
      ReplaceEachGone(t, ms[1..], sub);
      forall j, k: nat | 0 <= j < |ms|
        ensures !OccursAt(ReplaceEach(text, ms, sub), ms[j], k)
      {
        if j > 0 {
          assert ms[j] == ms[1..][j - 1];
        }
      }
    }
  }

  /** normalize, with its loop over the matches. */
  method Normalize(r: Rule, sub: string, text: string) returns (matches: seq<string>, out: string)
    ensures (matches, out) == Normalized(r, sub, text)
    ensures Normal(out)
  {
    matches := FindAll(r, text);
    var t := text;
    for x := 0 to |matches|
      invariant ReplaceEach(t, matches[x..], sub) == ReplaceEach(text, matches, sub)
    {
      assert matches[x..][1..] == matches[x + 1..];
      t := ReplaceAll(t, matches[x], sub);
    }
    assert matches[|matches|..] == [];
    out := Collapse(t);
    CollapseNormal(t);
  }

  // ---------------------------------------------------------------------------
  // The rule loop

  /** `regex_matches[key] = value` on an insertion-ordered dictionary. */
  function Put(d: Entries, k: string, v: seq<string>): Entries
  {
    if d == [] then [(k, v)]
    else if d[0].0 == k then [(k, v)] + d[1..]
    else [d[0]] + Put(d[1..], k, v)
  }

  /** Assigning an existing key replaces its value where it stands. */
  lemma {:induction false} PutExisting(d: Entries, k: string, v: seq<string>, e: nat)
    requires e < |d| && d[e].0 == k && forall f :: 0 <= f < e ==> d[f].0 != k
    ensures Put(d, k, v) == d[e := (k, v)]
  {
    if e > 0 {
      PutExisting(d[1..], k, v, e - 1);
      assert d[e := (k, v)] == [d[0]] + d[1..][e - 1 := (k, v)];
    }
  }

  /** A new key goes at the end. */
  lemma PutNew(d: Entries, k: string, v: seq<string>)
    requires forall e :: 0 <= e < |d| ==> d[e].0 != k
    ensures Put(d, k, v) == d + [(k, v)]
    decreases |d|
  {
    if d != [] {
      PutNew(d[1..], k, v);
    }
  }

  /** One pass of the rule loop: a rule and the current text give the matches and
      the rewritten text. */
  type Pass = (Rule, string) -> (seq<string>, string)

  /** The pass tokenize makes: normalize with the rule's pattern and substitute. */
  function NormalizePass(): Pass
  {
    (r: Rule, text: string) => Normalized(r, Substitute(r), text)
  }

  /** Lines 53-56 for the first n rules of the table: the dictionary and the text
      after them, for a given pass. */
  function Fold(pass: Pass, addr: string, n: nat): (Entries, string)
    requires n <= |Rules|
  {
    if n == 0 then ([], addr)
    else
      var (d, text) := Fold(pass, addr, n - 1);
      var r := Rules[n - 1];
      var (ms, text') := pass(r, text);
      (Put(d, Marker(r), ms), text')
  }

  /** The dictionary and the text after the first n rules. */
  function RunRules(addr: string, n: nat): (Entries, string)
    requires n <= |Rules|
  {
    Fold(NormalizePass(), addr, n)
  }

  /** The text rule n sees: the address as rewritten by the rules before it. */
  function TextBefore(addr: string, n: nat): string
    requires n <= |Rules|
  {
    RunRules(addr, n).1
  }

  /** After the first n rules the dictionary holds exactly their markers, in table
      order. */
  lemma {:induction false} FoldKeys(pass: Pass, addr: string, n: nat)
    requires n <= |Rules|
    ensures |Fold(pass, addr, n).0| == n
    ensures forall e :: 0 <= e < n ==> Fold(pass, addr, n).0[e].0 == Marker(Rules[e])
  {
    if n > 0 {
      FoldKeys(pass, addr, n - 1);
      FoldStep(pass, addr, n);
      forall e | 0 <= e < n - 1
        ensures Fold(pass, addr, n).0[e] == Fold(pass, addr, n - 1).0[e]
      {
      }
    }
  }

  /** Rule n - 1 appends its marker and its matches to the dictionary, and hands
      its text on. */
  lemma FoldStep(pass: Pass, addr: string, n: nat)
    requires 0 < n <= |Rules|
    requires |Fold(pass, addr, n - 1).0| == n - 1
    requires forall e :: 0 <= e < n - 1 ==> Fold(pass, addr, n - 1).0[e].0 == Marker(Rules[e])
    ensures Fold(pass, addr, n).0 == Fold(pass, addr, n - 1).0 +
      [(Marker(Rules[n - 1]), pass(Rules[n - 1], Fold(pass, addr, n - 1).1).0)]
    ensures Fold(pass, addr, n).1 == pass(Rules[n - 1], Fold(pass, addr, n - 1).1).1
  {
    var d := Fold(pass, addr, n - 1).0;
    var r := Rules[n - 1];
    forall e | 0 <= e < |d|
      ensures d[e].0 != Marker(r)
    {
      RulesDistinct(e, n - 1);
      MarkersDistinct(Rules[e], r);
    }
    PutNew(d, Marker(r), pass(r, Fold(pass, addr, n - 1).1).0);
  }

  /** Entry e holds what the pass returned for rule e on the text that rule saw. */
  lemma {:induction false} FoldEntry(pass: Pass, addr: string, n: nat, e: nat)
    requires e < n <= |Rules|
    ensures |Fold(pass, addr, n).0| == n
    ensures Fold(pass, addr, n).0[e] == (Marker(Rules[e]), pass(Rules[e], Fold(pass, addr, e).1).0)
  {
    FoldKeys(pass, addr, n - 1);
    FoldStep(pass, addr, n);
    if e < n - 1 {
      FoldEntry(pass, addr, n - 1, e);
    }
  }

  /** After the rule loop the dictionary has one entry per rule, in table order:
      entry e is rule e's marker with what findall returned for rule e on the
      address as rewritten by the rules before it. */
  lemma RunRulesEntry(addr: string, e: nat)
    requires e < |Rules|
    ensures |RunRules(addr, |Rules|).0| == |Rules|
    ensures RunRules(addr, |Rules|).0[e] == (Marker(Rules[e]), FindAll(Rules[e], TextBefore(addr, e)))
  {
    FoldEntry(NormalizePass(), addr, |Rules|, e);
  }

  /** Each rule sees the text the previous rule's normalize returned. */
  lemma RunRulesText(addr: string, n: nat)
    requires 0 < n <= |Rules|
    ensures TextBefore(addr, n) ==
      Normalized(Rules[n - 1], Substitute(Rules[n - 1]), TextBefore(addr, n - 1)).1
  {
  }

  // ---------------------------------------------------------------------------
  // Tokens

  /** list(token): the characters of a token, each as a string of its own. */
  function Chars(t: string): (cs: seq<string>)
    ensures |cs| == |t| && forall i :: 0 <= i < |t| ==> cs[i] == [t[i]]
  {
    seq(|t|, i requires 0 <= i < |t| => [t[i]])
  }

  /** The use_char pieces of one token. */
  function Pieces(t: string): seq<string>
  {
    if IsMarkerLike(Strip(t)) then [t] else Chars(t)
  }

  /** The use_char split of lines 60-63: marker-like tokens whole, every other
      token character by character. */
  function CharTokens(ts: seq<string>): seq<string>
  {
    if ts == [] then [] else Pieces(ts[0]) + CharTokens(ts[1..])
  }

  /** The tokens before restoration. */
  function Tokens(text: string, useChar: bool): seq<string>
  {
    if useChar then CharTokens(Split(text)) else Split(text)
  }

  /** A token from str.split() is its own strip. */
  lemma StripToken(t: string)
    requires IsToken(t)
    ensures Strip(t) == t
  {
    assert LeadingSpaces(t) == 0 && t[0..] == t;
    assert TrailingSpaces(t) == 0;
  }

  lemma {:induction false} ConcatChars(t: string)
    ensures Concat(Chars(t)) == t
    decreases |t|
  {
    if t != [] {
      assert Chars(t) == [[t[0]]] + Chars(t[1..]);
      ConcatChars(t[1..]);
    }
  }

  lemma {:induction false} ConcatAppend(a: seq<string>, b: seq<string>)
    ensures Concat(a + b) == Concat(a) + Concat(b)
  {
    if a != [] {
      assert (a + b)[0] == a[0] && (a + b)[1..] == a[1..] + b;
      ConcatAppend(a[1..], b);
      assert a[0] + (Concat(a[1..]) + Concat(b)) == (a[0] + Concat(a[1..])) + Concat(b);
    } else {
      assert a + b == b;
    }
  }

  lemma {:induction false} CountAppend(a: seq<string>, b: seq<string>, k: string)
    ensures Count(a + b, k) == Count(a, k) + Count(b, k)
  {
    if a != [] {
      assert (a + b)[0] == a[0] && (a + b)[1..] == a[1..] + b;
      CountAppend(a[1..], b, k);
    } else {
      assert a + b == b;
    }
  }

  /** Characters are never a marker of two or more characters. */
  lemma {:induction false} CountChars(t: string, k: string)
    requires |k| >= 2
    ensures Count(Chars(t), k) == 0
    decreases |t|
  {
    if t != [] {
      assert Chars(t) == [[t[0]]] + Chars(t[1..]);
      CountAppend([[t[0]]], Chars(t[1..]), k);
      CountChars(t[1..], k);
    }
  }

  /** The use_char pieces of a token from str.split(): the token itself when it is
      marker-like, its characters otherwise. */
  lemma PiecesToken(t: string)
    requires IsToken(t)
    ensures Pieces(t) == if IsMarkerLike(t) then [t] else Chars(t)
  {
    StripToken(t);
  }

  /** The use_char split keeps the text of the tokens, in order. */
  lemma {:induction false} CharTokensText(ts: seq<string>)
    requires AllTokens(ts)
    ensures Concat(CharTokens(ts)) == Concat(ts)
  {
    if ts != [] {
      AllTokensTail(ts);
      CharTokensText(ts[1..]);
      PiecesToken(ts[0]);
      ConcatAppend(Pieces(ts[0]), CharTokens(ts[1..]));
      if !IsMarkerLike(ts[0]) {
        ConcatChars(ts[0]);
      }
    }
  }

  /** Every use_char piece is a whole marker-like token or a single character. */
  lemma {:induction false} CharTokensPieces(ts: seq<string>)
    requires AllTokens(ts)
    ensures forall p :: p in CharTokens(ts) ==> (p in ts && IsMarkerLike(p)) || |p| == 1
  {
    if ts != [] {
      AllTokensTail(ts);
      CharTokensPieces(ts[1..]);
      PiecesToken(ts[0]);
    }
  }

  /** A marker occurs as often among the use_char pieces as among the tokens, so
      restoration sees the same markers either way. */
  lemma {:induction false} CharTokensCount(ts: seq<string>, k: string)
    requires AllTokens(ts) && IsMarkerLike(k) && |k| >= 2
    ensures Count(CharTokens(ts), k) == Count(ts, k)
  {
    if ts != [] {
      AllTokensTail(ts);
      CharTokensCount(ts[1..], k);
      PiecesToken(ts[0]);
      CountAppend(Pieces(ts[0]), CharTokens(ts[1..]), k);
      if !IsMarkerLike(ts[0]) {
        CountChars(ts[0], k);
      }
    }
  }

  // ---------------------------------------------------------------------------
  // tokenize

  /** `regex_matches[key]` on the defaultdict: the recorded list, or an empty one. */
  function Lookup(d: Entries, k: string): seq<string>
  {
    if d == [] then [] else if d[0].0 == k then d[0].1 else Lookup(d[1..], k)
  }

  /** The record of lines 72-76. */
  function MakeAddress(d: Entries, tokens: seq<string>): Address
  {
    Address(
      Lookup(d, "#TO#"), Lookup(d, "#KAI#"), Lookup(d, "#KU#"), Lookup(d, "#MUNE#"),
      Lookup(d, "#CHOME#"), Lookup(d, "#BAN#"), Lookup(d, "#GO#"), Lookup(d, "#POSTAL#"),
      Lookup(d, "#ENDGO#"), tokens)
  }

  /** tokenize(addr, use_char, return_str), with ValueError from list.index as a
      failure naming the marker. */
  function TokenizeSpec(addr: string, useChar: bool, returnStr: bool): Result<Output, string>
  {
    var (d, text) := RunRules(addr, |Rules|);
    match Restore(Tokens(text, useChar), d)
    case Failure(k) => Failure(k)
    case Success(ts) =>
      var address := MakeAddress(d, ts);
      Success(if returnStr then Joined(Join(address.tokens)) else Record(address))
  }

  /** tokenize: the rule loop, the split and the restoration in place. */
  method Tokenize(addr: string, useChar: bool, returnStr: bool) returns (res: Result<Output, string>)
    ensures res == TokenizeSpec(addr, useChar, returnStr)
  {
    var d: Entries := [];
    var text := addr;
    for n := 0 to |Rules|
      invariant (d, text) == RunRules(addr, n)
    {
      var r := Rules[n];
      var matches;
      matches, text := Normalize(r, Substitute(r), text);
      d := Put(d, Marker(r), matches);
    }
    var ts := if useChar then CharTokens(Split(text)) else Split(text);
    var a := new string[|ts|](i requires 0 <= i < |ts| => ts[i]);
    assert a[..] == ts;
    var err := RestoreInPlace(a, d);
    if err.Some? {
      return Failure(err.value);
    }
    var address := MakeAddress(d, a[..]);
    res := Success(if returnStr then Joined(Join(address.tokens)) else Record(address));
  }

  // ---------------------------------------------------------------------------
  // What tokenize promises

  /** The field of the record that holds a rule's matches. */
  function Field(a: Address, r: Rule): seq<string>
  {
    match r
    case To => a.to
    case Kai => a.kai
    case Ku => a.ku
    case Mune => a.mune
    case Chome => a.chome
    case Ban => a.ban
    case Go => a.go
    case Postal => a.postal
    case EndGo => a.endgo
  }

  /** The dictionary after the rule loop. */
  function Recorded(addr: string): Entries
  {
    RunRules(addr, |Rules|).0
  }

  /** The text after the rule loop. */
  function Residual(addr: string): string
  {
    RunRules(addr, |Rules|).1
  }

  /** With distinct keys, looking up the key of entry e gives entry e's list. */
  lemma {:induction false} LookupAt(d: Entries, e: nat)
    requires e < |d| && forall f :: 0 <= f < |d| && f != e ==> d[f].0 != d[e].0
    ensures Lookup(d, d[e].0) == d[e].1
  {
    if e > 0 {
      forall f | 0 <= f < |d[1..]| && f != e - 1
        ensures d[1..][f].0 != d[1..][e - 1].0
      {
        assert d[1..][f] == d[f + 1];
      }
      LookupAt(d[1..], e - 1);
    }
  }

  /** The recorded keys are the nine markers, in table order, each once. */
  lemma RecordedKeys(addr: string)
    ensures |Recorded(addr)| == |Rules|
    ensures forall e :: 0 <= e < |Rules| ==> Recorded(addr)[e].0 == Marker(Rules[e])
    ensures forall e, f :: 0 <= e < |Rules| && 0 <= f < |Rules| && e != f ==>
      Recorded(addr)[e].0 != Recorded(addr)[f].0
  {
    FoldKeys(NormalizePass(), addr, |Rules|);
    forall e, f | 0 <= e < |Rules| && 0 <= f < |Rules| && e != f
      ensures Marker(Rules[e]) != Marker(Rules[f])
    {
      if e < f {
        RulesDistinct(e, f);
      } else {
        RulesDistinct(f, e);
      }
      MarkersDistinct(Rules[e], Rules[f]);
    }
  }

  /** Each field of the record is the list findall returned for its rule on the
      text that rule saw: `to` on the address itself, `kai` on the text after TO,
      and so on in table order. */
  lemma AddressField(addr: string, tokens: seq<string>, e: nat)
    requires e < |Rules|
    ensures Field(MakeAddress(Recorded(addr), tokens), Rules[e]) == FindAll(Rules[e], TextBefore(addr, e))
    ensures MakeAddress(Recorded(addr), tokens).tokens == tokens
  {
    RecordedKeys(addr);
    RunRulesEntry(addr, e);
    LookupAt(Recorded(addr), e);
    FieldLookup(Recorded(addr), tokens, Rules[e]);
  }

  /** The record reads each rule's list under the rule's marker. */
  lemma FieldLookup(d: Entries, tokens: seq<string>, r: Rule)
    ensures Field(MakeAddress(d, tokens), r) == Lookup(d, Marker(r))
  {
  }

  /** The recorded dictionary keeps markers and values apart: its keys are distinct
      and no recorded match is a marker, since no match ends in '#'. */
  lemma RecordedSeparate(addr: string)
    ensures Separate(Recorded(addr))
  {
    var d := Recorded(addr);
    RecordedKeys(addr);
    forall e, f | 0 <= e < |d| && 0 <= f < |d|
      ensures d[e].0 !in d[f].1
    {
      RunRulesEntry(addr, f);
      ScanGroups(Attempt(Rules[f]), TextBefore(addr, f), 0);
      MarkerShape(Rules[e]);
    }
  }

  /** tokenize fails exactly when some marker occurs among the tokens fewer times
      than it has recorded matches, and it then names the first such marker in
      table order; otherwise the tokens are the split tokens with the occurrences
      of each marker overwritten by its matches in order. */
  lemma TokenizeOutcome(addr: string, useChar: bool, returnStr: bool)
    ensures var ts := Tokens(Residual(addr), useChar); var d := Recorded(addr);
      TokenizeSpec(addr, useChar, returnStr) ==
        match Short(ts, d)
        case Some(k) => Failure(k)
        case None =>
          var address := MakeAddress(d, FillAll(ts, d));
          Success(if returnStr then Joined(Join(address.tokens)) else Record(address))
  {
    RecordedSeparate(addr);
    RestoreFill(Tokens(Residual(addr), useChar), Recorded(addr));
  }

  /** With return_str the result is the restored tokens of the record joined by
      single spaces; the failure cases are the same. */
  lemma TokenizeJoined(addr: string, useChar: bool)
    ensures TokenizeSpec(addr, useChar, true) ==
      match TokenizeSpec(addr, useChar, false)
      case Failure(k) => Failure(k)
      case Success(out) => Success(Joined(Join(out.address.tokens)))
  {
  }

  /** Without use_char the tokens before restoration are the whitespace split of
      the residual text, which is whitespace-normal, so joining them gives the text
      back. */
  lemma ResidualTokens(addr: string)
    ensures Normal(Residual(addr))
    ensures Tokens(Residual(addr), false) == Split(Residual(addr))
    ensures AllTokens(Split(Residual(addr)))
    ensures Join(Split(Residual(addr))) == Residual(addr)
  {
    RunRulesText(addr, |Rules|);
    NormalizedSpec(Rules[|Rules| - 1], Substitute(Rules[|Rules| - 1]), TextBefore(addr, |Rules| - 1));
    SplitTokens(Residual(addr));
    JoinSplitNormal(Residual(addr));
  }

  /** Restoration keeps the number of tokens and never touches a token that is not a
      marker; the k-th occurrence of a marker (counting from 0) receives the k-th
      match recorded for it, or stays the marker when there is none. */
  lemma RestoredTokens(addr: string, useChar: bool, j: nat)
    requires j < |Tokens(Residual(addr), useChar)|
    ensures |Recorded(addr)| == |Rules|
    ensures var ts := Tokens(Residual(addr), useChar); var d := Recorded(addr);
      && |FillAll(ts, d)| == |ts|
      && ((forall e :: 0 <= e < |Rules| ==> ts[j] != Marker(Rules[e])) ==> FillAll(ts, d)[j] == ts[j])
      && (forall e :: 0 <= e < |Rules| && ts[j] == Marker(Rules[e]) ==>
           FillAll(ts, d)[j] ==
             var n := Count(ts[..j], ts[j]);
             if n < |d[e].1| then d[e].1[n] else ts[j])
  {
    var ts, d := Tokens(Residual(addr), useChar), Recorded(addr);
    RecordedKeys(addr);
    RecordedSeparate(addr);
    if forall e :: 0 <= e < |Rules| ==> ts[j] != Marker(Rules[e]) {
      FillAllKeeps(ts, d, j);
    }
    forall e | 0 <= e < |Rules| && ts[j] == Marker(Rules[e])
      ensures FillAll(ts, d)[j] ==
        var n := Count(ts[..j], ts[j]);
        if n < |d[e].1| then d[e].1[n] else ts[j]
    {
      FillAllAt(ts, d, e, j);
    }
  }

  /** Splitting into characters outside the markers does not change whether
      tokenize fails, nor which marker it names. */
  lemma CharSplitSameOutcome(addr: string, returnStr: bool)
    ensures TokenizeSpec(addr, true, returnStr).Success? == TokenizeSpec(addr, false, returnStr).Success?
    ensures TokenizeSpec(addr, true, returnStr).Failure? ==>
      TokenizeSpec(addr, true, returnStr).error == TokenizeSpec(addr, false, returnStr).error
  {
    var ts := Split(Residual(addr));
    var d := Recorded(addr);
    TokenizeOutcome(addr, true, returnStr);
    TokenizeOutcome(addr, false, returnStr);
    RecordedKeys(addr);
    SplitTokens(Residual(addr));
    forall e | 0 <= e < |d|
      ensures Count(CharTokens(ts), d[e].0) == Count(ts, d[e].0)
    {
      MarkerShape(Rules[e]);
      CharTokensCount(ts, d[e].0);
    }
    ShortCounts(CharTokens(ts), ts, d);
  }
}
