/**
 * The HTML encoder applied to the criteria catalogue's titles, methodology
 * steps, notes and particular cases before they are stored and shown.
 */
module HtmlEncoding {
  import opened Wrappers

  /** `s.replace(/ch/g, entity)`: every occurrence of `ch`, left to right, becomes `entity`. */
  function ReplaceAll(s: string, ch: char, entity: string): (r: string)
    ensures forall x :: x in r ==> (x in s && x != ch) || x in entity
    ensures ch !in s ==> r == s
  {
    if s == [] then []
    else (if s[0] == ch then entity else [s[0]]) + ReplaceAll(s[1..], ch, entity)
  }

  /** Replacing over a concatenation replaces over each part. */
  lemma {:induction false} ReplaceAllAppend(a: string, b: string, ch: char, entity: string)
    ensures ReplaceAll(a + b, ch, entity) == ReplaceAll(a, ch, entity) + ReplaceAll(b, ch, entity)
  {
    if a != [] {
      assert (a + b)[1..] == a[1..] + b;
      ReplaceAllAppend(a[1..], b, ch, entity);
    } else {
      assert a + b == b;
    }
  }

  /** The entity of one character; any other character stands for itself. */
  function Escape(c: char): string
  {
    match c
    case '&' => "&amp;"
    case '<' => "&lt;"
    case '>' => "&gt;"
    case '"' => "&quot;"
    case '\'' => "&#039;"
    case _ => [c]
  }

  /** Reference encoding: each character replaced by its entity, independently of the others. */
  function EscapeAll(s: string): string
  {
    if s == [] then [] else Escape(s[0]) + EscapeAll(s[1..])
  }

  /** A replacement `s.replace(/ch/g, entity)` as the pair (ch, entity). */
  type Rule = (char, string)

  /** The replacements of encodeHtml, in the order they are chained. */
  const HtmlRules: seq<Rule> := [('&', "&amp;"), ('<', "&lt;"), ('>', "&gt;"), ('"', "&quot;"), ('\'', "&#039;")]

  /** Chained replacements: the first rule over the whole string, then the next over its result, and so on. */
  function ReplaceEach(s: string, rules: seq<Rule>): string
    decreases |rules|
  {
    if rules == [] then s else ReplaceEach(ReplaceAll(s, rules[0].0, rules[0].1), rules[1..])
  }

  /** The entity of the first rule for `c`, or `c` itself. */
  function Lookup(c: char, rules: seq<Rule>): string
  {
    if rules == [] then [c] else if rules[0].0 == c then rules[0].1 else Lookup(c, rules[1..])
  }

  /** No entity contains a character that a later rule replaces: the reason `&` goes first. */
  ghost predicate NoLaterChar(rules: seq<Rule>)
  {
    forall i, j :: 0 <= i < j < |rules| ==> rules[j].0 !in rules[i].1
  }

  lemma {:induction false} ReplaceEachAppend(a: string, b: string, rules: seq<Rule>)
    ensures ReplaceEach(a + b, rules) == ReplaceEach(a, rules) + ReplaceEach(b, rules)
    decreases |rules|
  {
    if rules != [] {
      ReplaceAllAppend(a, b, rules[0].0, rules[0].1);
      ReplaceEachAppend(ReplaceAll(a, rules[0].0, rules[0].1), ReplaceAll(b, rules[0].0, rules[0].1), rules[1..]);
    }
  }

  lemma {:induction false} ReplaceEachAbsent(s: string, rules: seq<Rule>)
    requires forall j :: 0 <= j < |rules| ==> rules[j].0 !in s
    ensures ReplaceEach(s, rules) == s
    decreases |rules|
  {
    if rules != [] {
      ReplaceEachAbsent(s, rules[1..]);
    }
  }

  /** Under NoLaterChar, the chain maps a single character to the entity of its first rule. */
  lemma {:induction false} ReplaceEachChar(c: char, rules: seq<Rule>)
    requires NoLaterChar(rules)
    ensures ReplaceEach([c], rules) == Lookup(c, rules)
    decreases |rules|
  {
    if rules != [] {
      assert [c][1..] == [];
      var rest := rules[1..];
      if rules[0].0 == c {
        assert ReplaceAll([c], c, rules[0].1) == rules[0].1;
        forall j | 0 <= j < |rest| ensures rest[j].0 !in rules[0].1 {
          assert rest[j] == rules[j + 1];
        }
        ReplaceEachAbsent(rules[0].1, rest);
      } else {
        assert ReplaceAll([c], rules[0].0, rules[0].1) == [c];
        assert NoLaterChar(rest) by {
          forall i, j | 0 <= i < j < |rest| ensures rest[j].0 !in rest[i].1 {
            assert rest[i] == rules[i + 1] && rest[j] == rules[j + 1];
          }
        }
        ReplaceEachChar(c, rest);
      }
    }
  }

  lemma HtmlRulesOrdered()
    ensures NoLaterChar(HtmlRules)
  {
    assert "&amp;" == ['&', 'a', 'm', 'p', ';'];
    assert "&lt;" == ['&', 'l', 't', ';'];
    assert "&gt;" == ['&', 'g', 't', ';'];
    assert "&quot;" == ['&', 'q', 'u', 'o', 't', ';'];
  }

  lemma HtmlRulesEscape(c: char)
    ensures Lookup(c, HtmlRules) == Escape(c)
  {
    var r := HtmlRules;
    var r1, r2, r3, r4 := r[1..], r[2..], r[3..], r[4..];
    assert r1[1..] == r2 && r2[1..] == r3 && r3[1..] == r4 && r4[1..] == [];
    assert Lookup(c, r) == if c == '&' then "&amp;" else Lookup(c, r1);
    assert Lookup(c, r1) == if c == '<' then "&lt;" else Lookup(c, r2);
    assert Lookup(c, r2) == if c == '>' then "&gt;" else Lookup(c, r3);
    assert Lookup(c, r3) == if c == '"' then "&quot;" else Lookup(c, r4);
    assert Lookup(c, r4) == if c == '\'' then "&#039;" else [c];
  }

  /** The chain of replacements agrees with the character-by-character reference encoding. */
  lemma {:induction false} ReplaceChainIsEscapeAll(s: string)
    ensures ReplaceEach(s, HtmlRules) == EscapeAll(s)
  {
    if s != [] {
      assert s == [s[0]] + s[1..];
      ReplaceEachAppend([s[0]], s[1..], HtmlRules);
      HtmlRulesOrdered();
      ReplaceEachChar(s[0], HtmlRules);
      HtmlRulesEscape(s[0]);
      ReplaceChainIsEscapeAll(s[1..]);
    }
  }

  /** No raw `<`, `>`, `"` or `'` survives the reference encoding. */
  lemma {:induction false} EscapeAllSafe(s: string)
    ensures forall x :: x in EscapeAll(s) ==> x != '<' && x != '>' && x != '"' && x != '\''
  {
    if s != [] {
      EscapeAllSafe(s[1..]);
      assert forall x :: x in Escape(s[0]) ==> x != '<' && x != '>' && x != '"' && x != '\'';
    }
  }

  /**
   * encodeHtml: a missing, non-string or empty value becomes the empty string;
   * a string becomes its entity encoding, which holds no raw `<`, `>`, `"` or
   * `'`. `None` stands for any value whose type is not string.
   */
  function EncodeHtml(str: Option<string>): (r: string)
    ensures str.None? ==> r == []
    ensures str.Some? ==> r == EscapeAll(str.value)
    ensures forall x :: x in r ==> x != '<' && x != '>' && x != '"' && x != '\''
  {
    if str.None? || str.value == [] then []
    else
      ReplaceChainIsEscapeAll(str.value);
      EscapeAllSafe(str.value);
      ReplaceEach(str.value, HtmlRules)
  }

  /** Inverse of the encoding: each of the five entities back to its character. */
  function DecodeHtml(t: string): string
  {
    if t == [] then []
    else if |t| >= 5 && t[..5] == "&amp;" then "&" + DecodeHtml(t[5..])
    else if |t| >= 4 && t[..4] == "&lt;" then "<" + DecodeHtml(t[4..])
    else if |t| >= 4 && t[..4] == "&gt;" then ">" + DecodeHtml(t[4..])
    else if |t| >= 6 && t[..6] == "&quot;" then "\"" + DecodeHtml(t[6..])
    else if |t| >= 6 && t[..6] == "&#039;" then "'" + DecodeHtml(t[6..])
    else [t[0]] + DecodeHtml(t[1..])
  }

  /** Decoding an entity followed by anything yields its character followed by the decoding of the rest. */
  lemma DecodeEscape(c: char, rest: string)
    ensures DecodeHtml(Escape(c) + rest) == [c] + DecodeHtml(rest)
  {
    var e := Escape(c);
    var t := e + rest;
    assert t[..|e|] == e && t[|e|..] == rest;
    match c
    case '&' =>
    case '<' =>
      assert |t| >= 5 ==> t[..5][1] == 'l';
    case '>' =>
      assert |t| >= 5 ==> t[..5][1] == 'g';
      assert t[..4][1] == 'g';
    case '"' =>
      assert t[..5][1] == 'q' && t[..4][1] == 'q';
    case '\'' =>
      assert t[..5][1] == '#' && t[..4][1] == '#' && t[..6] == "&#039;";
    case _ =>
      assert e == [c] && t[0] == c && t[1..] == rest;
      assert |t| >= 4 ==> t[..4][0] == c;
      assert |t| >= 5 ==> t[..5][0] == c;
      assert |t| >= 6 ==> t[..6][0] == c;
  }

  /** The encoding loses nothing: decoding it gives back the original string. */
  lemma {:induction false} EncodeDecode(s: string)
    ensures DecodeHtml(EncodeHtml(Some(s))) == s
  {
    EscapeAllRoundTrip(s);
  }

  lemma {:induction false} EscapeAllRoundTrip(s: string)
    ensures DecodeHtml(EscapeAll(s)) == s
  {
    if s != [] {
      DecodeEscape(s[0], EscapeAll(s[1..]));
      EscapeAllRoundTrip(s[1..]);
      assert s == [s[0]] + s[1..];
    }
  }
}
