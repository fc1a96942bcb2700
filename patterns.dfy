/**
 * Pattern extraction of the learning engine: the tags drawn from the free-text
 * description of a non-conformity, which are then counted per criterion and
 * matched against the patterns of later requests.
 */
module PatternExtraction {
  import opened Wrappers
  import opened Seqs

  /** `String.prototype.toLowerCase` on one character, for ASCII and Latin-1 letters. */
  function LowerChar(c: char): (l: char)
    ensures 'A' <= c <= 'Z' ==> 'a' <= l <= 'z'
    ensures !('A' <= c <= 'Z') && !('\U{C0}' <= c <= '\U{DE}') ==> l == c
  {
    if 'A' <= c <= 'Z' then (c as int + 32) as char
    else if '\U{C0}' <= c <= '\U{DE}' && c != '\U{D7}' then (c as int + 32) as char
    else c
  }

  function ToLower(s: string): (r: string)
    ensures |r| == |s|
    ensures forall i :: 0 <= i < |s| ==> r[i] == LowerChar(s[i])
  {
    seq(|s|, i requires 0 <= i < |s| => LowerChar(s[i]))
  }

  /** Lower-casing a lower-cased text changes nothing more. */
  lemma ToLowerIdempotent(s: string)
    ensures ToLower(ToLower(s)) == ToLower(s)
  {
    var l := ToLower(s);
    forall i | 0 <= i < |l| ensures LowerChar(l[i]) == l[i] {
    }
  }

  /** `text.includes(w)`: `w` occurs at some position of `text`. */
  predicate Contains(text: string, w: string)
  {
    exists i :: 0 <= i <= |text| - |w| && OccursAt(text, w, i)
  }

  predicate OccursAt(text: string, w: string, i: int)
  {
    0 <= i <= |text| - |w| && text[i..i + |w|] == w
  }

  /** A category of a pattern dictionary: its name and the terms that reveal it. */
  datatype Category = Category(name: string, terms: seq<string>)

  /** The technical dictionary, categories and terms in declaration order. */
  const TechnicalPatterns: seq<Category> := [
    Category("images", ["alt", "aria-label", "role=\"img\"", "figure", "figcaption"]),
    Category("forms", ["label", "input", "aria-required", "required", "aria-invalid"]),
    Category("structure", ["header", "nav", "main", "heading", "aria-hidden"]),
    Category("interactive", ["button", "link", "aria-expanded", "aria-controls"]),
    Category("multimedia", ["video", "audio", "track", "captions"])
  ]

  /** The impact dictionary: phrases of the (French) descriptions that reveal each kind of impact. */
  const ImpactPatterns: seq<Category> := [
    Category("navigation", ["impossible de naviguer", "blocage", "impasse"]),
    Category("comprehension", ["incompr\U{e9}hensible", "confusion", "ambigu"]),
    Category("interaction", ["impossible de cliquer", "non activable", "bloqu\U{e9}"])
  ]

  /** A tag `prefix:suffix`. */
  function Tag(prefix: string, suffix: string): string
  {
    prefix + ":" + suffix
  }

  /** A tag splits back into its prefix and suffix when neither prefix holds a colon. */
  lemma TagSplit(a: string, b: string, c: string, d: string)
    requires ':' !in a && ':' !in c
    requires Tag(a, b) == Tag(c, d)
    ensures a == c && b == d
  {
    var t := Tag(a, b);
    assert t == c + ":" + d;
    assert t[|a|] == ':' && t[|c|] == ':';
    assert |a| == |c|;
    assert a == t[..|a|] && c == t[..|c|];
    assert b == t[|a| + 1..] && d == t[|c| + 1..];
  }

  // ---------------------------------------------------------------------
  // The three phases, each as the list of tags it emits in order
  // ---------------------------------------------------------------------

  /** Phase 1 within one category: `category:term` for each term the lower-cased text contains. */
  function TermTags(lower: string, name: string, terms: seq<string>): seq<string>
  {
    if terms == [] then []
    else
      var last := terms[|terms| - 1];
      TermTags(lower, name, terms[..|terms| - 1]) + (if Contains(lower, last) then [Tag(name, last)] else [])
  }

  function TechnicalTags(lower: string, cats: seq<Category>): seq<string>
  {
    if cats == [] then []
    else
      var last := cats[|cats| - 1];
      TechnicalTags(lower, cats[..|cats| - 1]) + TermTags(lower, last.name, last.terms)
  }

  /** Phase 2 within one category: `impact:category` once per phrase the lower-cased text contains. */
  function PhraseTags(lower: string, name: string, phrases: seq<string>): seq<string>
  {
    if phrases == [] then []
    else
      var last := phrases[|phrases| - 1];
      PhraseTags(lower, name, phrases[..|phrases| - 1]) + (if Contains(lower, last) then [Tag("impact", name)] else [])
  }

  function ImpactTags(lower: string, cats: seq<Category>): seq<string>
  {
    if cats == [] then []
    else
      var last := cats[|cats| - 1];
      ImpactTags(lower, cats[..|cats| - 1]) + PhraseTags(lower, last.name, last.terms)
  }

  // ---------------------------------------------------------------------
  // Phase 3: the regular expressions, matched on the original text
  // ---------------------------------------------------------------------

  /** `\w`: an ASCII letter, digit or underscore. */
  predicate IsWordChar(c: char)
  {
    'a' <= c <= 'z' || 'A' <= c <= 'Z' || '0' <= c <= '9' || c == '_'
  }

  /** Length of the longest run of word characters starting at `i`: what a greedy `\w+` consumes. */
  function WordRun(s: string, i: nat): (n: nat)
    requires i <= |s|
    ensures i + n <= |s|
    ensures forall k :: i <= k < i + n ==> IsWordChar(s[k])
    ensures i + n == |s| || !IsWordChar(s[i + n])
    decreases |s| - i
  {
    if i == |s| || !IsWordChar(s[i]) then 0 else 1 + WordRun(s, i + 1)
  }

  /**
   * The four expressions: `lead` then a quote from `quotes`, a word and a
   * closing quote from `quotes` (`attribut ["'](\w+)["']`,
   * `balise ["'](\w+)["']`, `role="(\w+)"`), or `lead` then a word (`aria-\w+`).
   */
  datatype Scanner = QuotedWord(lead: string, quotes: set<char>) | BareWord(lead: string)

  const Scanners: seq<Scanner> := [
    QuotedWord("attribut ", {'"', '\''}),
    QuotedWord("balise ", {'"', '\''}),
    QuotedWord("role=", {'"'}),
    BareWord("aria-")
  ]

  /** The characters an expression matches when it is tried at position `i`. */
  function MatchAt(s: string, i: nat, sc: Scanner): (r: Option<nat>)
    requires i <= |s|
    ensures r.Some? ==> 0 < r.value && i + r.value <= |s|
  {
    var l := |sc.lead|;
    if i + l > |s| || s[i..i + l] != sc.lead then None
    else match sc
      case BareWord(_) =>
        var n := WordRun(s, i + l);
        if n == 0 then None else Some(l + n)
      case QuotedWord(_, quotes) =>
        if i + l >= |s| || s[i + l] !in quotes then None
        else
          var n := WordRun(s, i + l + 1);
          if n == 0 || i + l + 1 + n >= |s| || s[i + l + 1 + n] !in quotes then None
          else Some(l + n + 2)
  }

  /** What a match of `sc` looks like. */
  ghost predicate Shaped(sc: Scanner, m: string)
  {
    var l := |sc.lead|;
    match sc
    case BareWord(lead) =>
      |m| > l && m[..l] == lead && forall k :: l <= k < |m| ==> IsWordChar(m[k])
    case QuotedWord(lead, quotes) =>
      |m| >= l + 3 && m[..l] == lead && m[l] in quotes && m[|m| - 1] in quotes
      && forall k :: l < k < |m| - 1 ==> IsWordChar(m[k])
  }

  /** `text.matchAll(regex)` from position `i`: leftmost matches, each search resuming after the previous match. */
  function Matches(s: string, sc: Scanner, i: nat): seq<string>
    requires i <= |s|
    decreases |s| - i
  {
    if i == |s| then []
    else match MatchAt(s, i, sc)
      case None => Matches(s, sc, i + 1)
      case Some(n) => [s[i..i + n]] + Matches(s, sc, i + n)
  }

  /** Soundness of the scan: every match occurs in the text and has its expression's shape. */
  lemma {:induction false} MatchesSound(s: string, sc: Scanner, i: nat, m: string)
    requires i <= |s| && m in Matches(s, sc, i)
    ensures Contains(s, m) && Shaped(sc, m)
    decreases |s| - i
  {
    if i < |s| {
      if MatchAt(s, i, sc).None? {
        MatchesSkip(s, sc, i);
        MatchesSound(s, sc, i + 1, m);
      } else if m == s[i..i + MatchAt(s, i, sc).value] {
        MatchShaped(s, i, sc);
      } else {
        MatchesUnfold(s, sc, i);
        MatchesSound(s, sc, i + MatchAt(s, i, sc).value, m);
      }
    }
  }

  lemma MatchShaped(s: string, i: nat, sc: Scanner)
    requires i <= |s| && MatchAt(s, i, sc).Some?
    ensures var n := MatchAt(s, i, sc).value; Contains(s, s[i..i + n]) && Shaped(sc, s[i..i + n])
  {
    var n := MatchAt(s, i, sc).value;
    var m := s[i..i + n];
    var l := |sc.lead|;
    assert OccursAt(s, m, i);
    assert s[i..i + n][..l] == s[i..i + l];
    assert forall k :: 0 <= k < n ==> m[k] == s[i + k];
  }

  /** No match of `sc` starting in `[i, j)` runs past `j`. */
  ghost predicate NoMatchCrosses(s: string, sc: Scanner, i: nat, j: nat)
    requires j <= |s|
  {
    forall k :: i <= k < j && MatchAt(s, k, sc).Some? ==> k + MatchAt(s, k, sc).value <= j
  }

  /**
   * Completeness of the scan: a match starting at `j` is returned when no
   * match found earlier from `i` runs past `j` (the scan resumes after each
   * match, so it reaches `j`).
   */
  lemma {:induction false} MatchesComplete(s: string, sc: Scanner, i: nat, j: nat)
    requires i <= j <= |s| && MatchAt(s, j, sc).Some? && NoMatchCrosses(s, sc, i, j)
    ensures s[j..j + MatchAt(s, j, sc).value] in Matches(s, sc, i)
    decreases j - i, 1
  {
    if i == j {
      MatchesUnfold(s, sc, j);
    } else if MatchAt(s, i, sc).None? {
      NoMatchCrossesFrom(s, sc, i, i + 1, j);
      MatchesComplete(s, sc, i + 1, j);
      MatchesSkip(s, sc, i);
    } else {
      NoMatchCrossesJump(s, sc, i, j);
      MatchesCompleteJump(s, sc, i, j);
    }
  }

  /** The step of `MatchesComplete` where a match at `i` ends at or before `j`. */
  lemma {:induction false} MatchesCompleteJump(s: string, sc: Scanner, i: nat, j: nat)
    requires i < j <= |s| && MatchAt(s, i, sc).Some? && MatchAt(s, j, sc).Some?
    requires i + MatchAt(s, i, sc).value <= j && NoMatchCrosses(s, sc, i + MatchAt(s, i, sc).value, j)
    ensures s[j..j + MatchAt(s, j, sc).value] in Matches(s, sc, i)
    decreases j - i, 0
  {
    MatchesComplete(s, sc, i + MatchAt(s, i, sc).value, j);
    MatchesAfter(s, sc, i, s[j..j + MatchAt(s, j, sc).value]);
  }

  /** A match found after the one at `i` is a match found from `i`. */
  lemma MatchesAfter(s: string, sc: Scanner, i: nat, m: string)
    requires i < |s| && MatchAt(s, i, sc).Some? && m in Matches(s, sc, i + MatchAt(s, i, sc).value)
    ensures m in Matches(s, sc, i)
  {
    MatchesUnfold(s, sc, i);
  }

  lemma NoMatchCrossesJump(s: string, sc: Scanner, i: nat, j: nat)
    requires i < j <= |s| && MatchAt(s, i, sc).Some? && NoMatchCrosses(s, sc, i, j)
    ensures i + MatchAt(s, i, sc).value <= j && NoMatchCrosses(s, sc, i + MatchAt(s, i, sc).value, j)
  {
  }

  lemma NoMatchCrossesFrom(s: string, sc: Scanner, i: nat, i': nat, j: nat)
    requires i <= i' && j <= |s| && NoMatchCrosses(s, sc, i, j)
    ensures NoMatchCrosses(s, sc, i', j)
  {
  }

  /** One step of the scan when no expression matches at `i`. */
  lemma MatchesSkip(s: string, sc: Scanner, i: nat)
    requires i < |s| && MatchAt(s, i, sc).None?
    ensures Matches(s, sc, i) == Matches(s, sc, i + 1)
  {
  }

  /** One step of the scan when an expression matches at `i`. */
  lemma MatchesUnfold(s: string, sc: Scanner, i: nat)
    requires i < |s| && MatchAt(s, i, sc).Some?
    ensures var n := MatchAt(s, i, sc).value; Matches(s, sc, i) == [s[i..i + n]] + Matches(s, sc, i + n)
  {
  }

  function MatchTags(ms: seq<string>): (tags: seq<string>)
    ensures |tags| == |ms|
    ensures forall k :: 0 <= k < |ms| ==> tags[k] == Tag("technique", ms[k])
  {
    seq(|ms|, k requires 0 <= k < |ms| => Tag("technique", ms[k]))
  }

  function TechniqueTags(text: string, scanners: seq<Scanner>): seq<string>
  {
    if scanners == [] then []
    else TechniqueTags(text, scanners[..|scanners| - 1]) + MatchTags(Matches(text, scanners[|scanners| - 1], 0))
  }

  /** The tags of the three phases over the given dictionaries and expressions. */
  function EmissionsOver(text: string, tech: seq<Category>, imp: seq<Category>, scanners: seq<Scanner>): seq<string>
  {
    var lower := ToLower(text);
    TechnicalTags(lower, tech) + ImpactTags(lower, imp) + TechniqueTags(text, scanners)
  }

  /** Every tag extractPatterns adds to its set, in the order it adds them. */
  function Emissions(text: string): seq<string>
  {
    EmissionsOver(text, TechnicalPatterns, ImpactPatterns, Scanners)
  }

  /** `Array.from(patterns)`: the distinct emitted tags, in order of first emission. */
  function Extracted(text: string): (tags: seq<string>)
    ensures NoDup(tags)
    ensures forall t :: t in tags <==> t in Emissions(text)
  {
    Dedup(Emissions(text))
  }

  lemma SeqAssoc(a: seq<string>, b: seq<string>, c: seq<string>)
    ensures (a + b) + c == a + (b + c)
  {
  }

  // ---------------------------------------------------------------------
  // What each tag means
  // ---------------------------------------------------------------------

  lemma {:induction false} TermTagsMember(lower: string, name: string, terms: seq<string>, t: string)
    ensures t in TermTags(lower, name, terms) <==> exists term :: term in terms && Contains(lower, term) && t == Tag(name, term)
  {
    if terms != [] {
      var init, last := terms[..|terms| - 1], terms[|terms| - 1];
      assert terms == init + [last];
      TermTagsMember(lower, name, init, t);
    }
  }

  lemma {:induction false} TechnicalTagsMember(lower: string, cats: seq<Category>, t: string)
    ensures t in TechnicalTags(lower, cats) <==> exists c, term :: c in cats && term in c.terms && Contains(lower, term) && t == Tag(c.name, term)
  {
    if cats != [] {
      var init, last := cats[..|cats| - 1], cats[|cats| - 1];
      assert cats == init + [last];
      TechnicalTagsMember(lower, init, t);
      TermTagsMember(lower, last.name, last.terms, t);
    }
  }

  lemma {:induction false} PhraseTagsMember(lower: string, name: string, phrases: seq<string>, t: string)
    ensures t in PhraseTags(lower, name, phrases) <==> t == Tag("impact", name) && exists p :: p in phrases && Contains(lower, p)
  {
    if phrases != [] {
      var init, last := phrases[..|phrases| - 1], phrases[|phrases| - 1];
      assert phrases == init + [last];
      PhraseTagsMember(lower, name, init, t);
    }
  }

  lemma {:induction false} ImpactTagsMember(lower: string, cats: seq<Category>, t: string)
    ensures t in ImpactTags(lower, cats) <==> exists c :: c in cats && t == Tag("impact", c.name) && exists p :: p in c.terms && Contains(lower, p)
  {
    if cats != [] {
      var init, last := cats[..|cats| - 1], cats[|cats| - 1];
      assert cats == init + [last];
      ImpactTagsMember(lower, init, t);
      PhraseTagsMember(lower, last.name, last.terms, t);
    }
  }

  lemma MatchTagsMember(ms: seq<string>, t: string)
    ensures t in MatchTags(ms) <==> exists m :: m in ms && t == Tag("technique", m)
  {
    if t in MatchTags(ms) {
      var k :| 0 <= k < |ms| && MatchTags(ms)[k] == t;
      assert ms[k] in ms;
    }
    forall m | m in ms && t == Tag("technique", m) ensures t in MatchTags(ms) {
      var k :| 0 <= k < |ms| && ms[k] == m;
      assert MatchTags(ms)[k] == t;
    }
  }

  lemma {:induction false} TechniqueTagsMember(text: string, scanners: seq<Scanner>, t: string)
    ensures t in TechniqueTags(text, scanners) <==> exists sc, m :: sc in scanners && m in Matches(text, sc, 0) && t == Tag("technique", m)
  {
    if scanners != [] {
      var init, last := scanners[..|scanners| - 1], scanners[|scanners| - 1];
      assert scanners == init + [last];
      TechniqueTagsMember(text, init, t);
      var ms := Matches(text, last, 0);
      MatchTagsMember(ms, t);
      assert TechniqueTags(text, scanners) == TechniqueTags(text, init) + MatchTags(ms);
    }
  }

  /** No category name holds a colon or is one of the two fixed prefixes. */
  lemma CategoryNames()
    ensures forall c :: c in TechnicalPatterns ==> ':' !in c.name && c.name != "impact" && c.name != "technique"
    ensures forall c :: c in ImpactPatterns ==> ':' !in c.name
  {
    TechnicalNames();
    ImpactNames();
  }

  lemma TechnicalNames()
    ensures forall c :: c in TechnicalPatterns ==> ':' !in c.name && c.name != "impact" && c.name != "technique"
  {
    forall c | c in TechnicalPatterns ensures ':' !in c.name && c.name != "impact" && c.name != "technique" {
      var k :| 0 <= k < |TechnicalPatterns| && TechnicalPatterns[k] == c;
      NameOk(c.name, k);
    }
  }

  lemma ImpactNames()
    ensures forall c :: c in ImpactPatterns ==> ':' !in c.name
  {
    forall c | c in ImpactPatterns ensures ':' !in c.name {
      var k :| 0 <= k < |ImpactPatterns| && ImpactPatterns[k] == c;
      assert c.name == ["navigation", "comprehension", "interaction"][k];
    }
  }

  lemma NameOk(name: string, k: nat)
    requires k < 5 && name == ["images", "forms", "structure", "interactive", "multimedia"][k]
    ensures ':' !in name && name != "impact" && name != "technique"
  {
    if k == 0 {
      assert name[2] != "impact"[2];
    } else if k == 1 {
      assert |name| == 5;
    } else if k == 2 {
      assert name[1] != "technique"[1];
    } else if k == 3 {
      assert |name| == 11;
    } else {
      assert |name| == 10;
    }
  }

  /** A tag is emitted exactly when one of the three phases emits it. */
  lemma EmittedBy(text: string, tech: seq<Category>, imp: seq<Category>, scanners: seq<Scanner>, t: string)
    ensures t in EmissionsOver(text, tech, imp, scanners) <==>
            (exists c, term :: c in tech && term in c.terms && Contains(ToLower(text), term) && t == Tag(c.name, term))
            || (exists c :: c in imp && t == Tag("impact", c.name) && exists p :: p in c.terms && Contains(ToLower(text), p))
            || (exists sc, m :: sc in scanners && m in Matches(text, sc, 0) && t == Tag("technique", m))
  {
    var lower := ToLower(text);
    TechnicalTagsMember(lower, tech, t);
    ImpactTagsMember(lower, imp, t);
    TechniqueTagsMember(text, scanners, t);
  }

  /**
   * A technical tag `category:term` is extracted exactly when the category
   * lists the term and the lower-cased text contains it.
   */
  lemma TechnicalTagIff(text: string, name: string, term: string)
    requires ':' !in name && name != "impact" && name != "technique"
    ensures Tag(name, term) in Extracted(text) <==>
            (exists c :: c in TechnicalPatterns && c.name == name && term in c.terms) && Contains(ToLower(text), term)
  {
    TechnicalNames();
    TechnicalTagIffOver(text, TechnicalPatterns, ImpactPatterns, Scanners, name, term);
  }

  lemma TechnicalTagIffOver(text: string, tech: seq<Category>, imp: seq<Category>, scanners: seq<Scanner>, name: string, term: string)
    requires ':' !in name && name != "impact" && name != "technique"
    requires forall c :: c in tech ==> ':' !in c.name
    ensures Tag(name, term) in EmissionsOver(text, tech, imp, scanners) <==>
            (exists c :: c in tech && c.name == name && term in c.terms) && Contains(ToLower(text), term)
  {
    var lower := ToLower(text);
    var t := Tag(name, term);
    EmittedBy(text, tech, imp, scanners, t);
    if exists c, term' :: c in tech && term' in c.terms && Contains(lower, term') && t == Tag(c.name, term') {
      var c, term' :| c in tech && term' in c.terms && Contains(lower, term') && t == Tag(c.name, term');
      TagSplit(name, term, c.name, term');
    }
    if exists c :: c in imp && t == Tag("impact", c.name) && exists p :: p in c.terms && Contains(lower, p) {
      var c :| c in imp && t == Tag("impact", c.name);
      TagSplit(name, term, "impact", c.name);
    }
    if exists sc, m :: sc in scanners && m in Matches(text, sc, 0) && t == Tag("technique", m) {
      var sc, m :| sc in scanners && m in Matches(text, sc, 0) && t == Tag("technique", m);
      TagSplit(name, term, "technique", m);
    }
  }

  /** `impact:category` is extracted exactly when the text contains one of the category's phrases. */
  lemma ImpactTagIff(text: string, name: string)
    requires ':' !in name
    ensures Tag("impact", name) in Extracted(text) <==>
            exists c :: c in ImpactPatterns && c.name == name && exists p :: p in c.terms && Contains(ToLower(text), p)
  {
    TechnicalNames();
    ImpactNames();
    ImpactTagIffOver(text, TechnicalPatterns, ImpactPatterns, Scanners, name);
  }

  lemma ImpactTagIffOver(text: string, tech: seq<Category>, imp: seq<Category>, scanners: seq<Scanner>, name: string)
    requires ':' !in name
    requires forall c :: c in tech ==> ':' !in c.name && c.name != "impact"
    requires forall c :: c in imp ==> ':' !in c.name
    ensures Tag("impact", name) in EmissionsOver(text, tech, imp, scanners) <==>
            exists c :: c in imp && c.name == name && exists p :: p in c.terms && Contains(ToLower(text), p)
  {
    var lower := ToLower(text);
    var t := Tag("impact", name);
    EmittedBy(text, tech, imp, scanners, t);
    if exists c, term :: c in tech && term in c.terms && Contains(lower, term) && t == Tag(c.name, term) {
      var c, term :| c in tech && term in c.terms && Contains(lower, term) && t == Tag(c.name, term);
      TagSplit("impact", name, c.name, term);
    }
    if exists c :: c in imp && t == Tag("impact", c.name) && exists p :: p in c.terms && Contains(lower, p) {
      var c :| c in imp && t == Tag("impact", c.name) && exists p :: p in c.terms && Contains(lower, p);
      TagSplit("impact", name, "impact", c.name);
    }
    if exists sc, m :: sc in scanners && m in Matches(text, sc, 0) && t == Tag("technique", m) {
      var sc, m :| sc in scanners && m in Matches(text, sc, 0) && t == Tag("technique", m);
      TagSplit("impact", name, "technique", m);
    }
  }

  /** `technique:m` is extracted exactly when `m` is a match of one of the expressions on the original text. */
  lemma TechniqueTagIff(text: string, m: string)
    ensures Tag("technique", m) in Extracted(text) <==> exists sc :: sc in Scanners && m in Matches(text, sc, 0)
  {
    TechnicalNames();
    TechniqueTagIffOver(text, TechnicalPatterns, ImpactPatterns, Scanners, m);
  }

  /** A match of one of the expressions at `j` that no earlier match overlaps yields the tag `technique:<match>`. */
  lemma TechniqueTagFound(text: string, sc: Scanner, j: nat)
    requires sc in Scanners && j <= |text| && MatchAt(text, j, sc).Some?
    requires NoMatchCrosses(text, sc, 0, j)
    ensures Tag("technique", text[j..j + MatchAt(text, j, sc).value]) in Extracted(text)
  {
    MatchesComplete(text, sc, 0, j);
    TechniqueTagIff(text, text[j..j + MatchAt(text, j, sc).value]);
  }

  lemma TechniqueTagIffOver(text: string, tech: seq<Category>, imp: seq<Category>, scanners: seq<Scanner>, m: string)
    requires forall c :: c in tech ==> ':' !in c.name && c.name != "technique"
    ensures Tag("technique", m) in EmissionsOver(text, tech, imp, scanners) <==>
            exists sc :: sc in scanners && m in Matches(text, sc, 0)
  {
    var lower := ToLower(text);
    var t := Tag("technique", m);
    EmittedBy(text, tech, imp, scanners, t);
    if exists c, term :: c in tech && term in c.terms && Contains(lower, term) && t == Tag(c.name, term) {
      var c, term :| c in tech && term in c.terms && Contains(lower, term) && t == Tag(c.name, term);
      TagSplit("technique", m, c.name, term);
    }
    if exists c :: c in imp && t == Tag("impact", c.name) && exists p :: p in c.terms && Contains(lower, p) {
      var c :| c in imp && t == Tag("impact", c.name);
      TagSplit("technique", m, "impact", c.name);
    }
    if exists sc, m' :: sc in scanners && m' in Matches(text, sc, 0) && t == Tag("technique", m') {
      var sc, m' :| sc in scanners && m' in Matches(text, sc, 0) && t == Tag("technique", m');
      TagSplit("technique", m, "technique", m');
    }
  }

  /** The description "L'image n'a pas d'attribut alt" yields `images:alt`. */
  lemma ExampleImageAlt()
    ensures Tag("images", "alt") in Extracted("L'image n'a pas d'attribut alt")
  {
    var text := "L'image n'a pas d'attribut alt";
    var lower := ToLower(text);
    assert text[27] == 'a' && text[28] == 'l' && text[29] == 't';
    assert lower[27..30] == "alt";
    assert OccursAt(lower, "alt", 27);
    var images := TechnicalPatterns[0];
    assert images in TechnicalPatterns && images.name == "images" && "alt" == images.terms[0];
    TechnicalTagIff(text, "images", "alt");
  }

  /** The description "Navigation impossible, blocage total" yields `impact:navigation` through the phrase "blocage". */
  lemma ExampleNavigationBlocked()
    ensures Tag("impact", "navigation") in Extracted("Navigation impossible, blocage total")
  {
    var text := "Navigation impossible, blocage total";
    BlocageOccurs(text);
    var navigation := ImpactPatterns[0];
    assert navigation in ImpactPatterns && navigation.name == "navigation" && "blocage" == navigation.terms[1];
    assert "blocage" in navigation.terms;
    ImpactTagIff(text, "navigation");
  }

  lemma BlocageOccurs(text: string)
    requires text == "Navigation impossible, blocage total"
    ensures Contains(ToLower(text), "blocage")
  {
    var lower := ToLower(text);
    assert text[23] == 'b' && text[24] == 'l' && text[25] == 'o' && text[26] == 'c';
    assert text[27] == 'a' && text[28] == 'g' && text[29] == 'e';
    assert lower[23..30] == "blocage";
    assert OccursAt(lower, "blocage", 23);
  }

  /** One step of the phase-1 inner loop, on the tags emitted so far. */
  lemma TermStep(before: seq<string>, lower: string, name: string, terms: seq<string>, ti: nat)
    requires ti < |terms|
    ensures Dedup(before + TermTags(lower, name, terms[..ti + 1])) ==
            if Contains(lower, terms[ti]) then AddNew(Dedup(before + TermTags(lower, name, terms[..ti])), Tag(name, terms[ti]))
            else Dedup(before + TermTags(lower, name, terms[..ti]))
  {
    assert terms[..ti + 1][..ti] == terms[..ti];
    var prev := before + TermTags(lower, name, terms[..ti]);
    SeqAssoc(before, TermTags(lower, name, terms[..ti]), if Contains(lower, terms[ti]) then [Tag(name, terms[ti])] else []);
    if Contains(lower, terms[ti]) {
      assert before + TermTags(lower, name, terms[..ti + 1]) == prev + [Tag(name, terms[ti])];
      DedupSnoc(prev, Tag(name, terms[ti]));
    } else {
      assert before + TermTags(lower, name, terms[..ti + 1]) == prev;
    }
  }

  /** One step of the phase-2 inner loop. */
  lemma PhraseStep(before: seq<string>, lower: string, name: string, phrases: seq<string>, ti: nat)
    requires ti < |phrases|
    ensures Dedup(before + PhraseTags(lower, name, phrases[..ti + 1])) ==
            if Contains(lower, phrases[ti]) then AddNew(Dedup(before + PhraseTags(lower, name, phrases[..ti])), Tag("impact", name))
            else Dedup(before + PhraseTags(lower, name, phrases[..ti]))
  {
    assert phrases[..ti + 1][..ti] == phrases[..ti];
    var prev := before + PhraseTags(lower, name, phrases[..ti]);
    SeqAssoc(before, PhraseTags(lower, name, phrases[..ti]), if Contains(lower, phrases[ti]) then [Tag("impact", name)] else []);
    if Contains(lower, phrases[ti]) {
      assert before + PhraseTags(lower, name, phrases[..ti + 1]) == prev + [Tag("impact", name)];
      DedupSnoc(prev, Tag("impact", name));
    } else {
      assert before + PhraseTags(lower, name, phrases[..ti + 1]) == prev;
    }
  }

  /** One step of the phase-3 inner loop. */
  lemma MatchStep(before: seq<string>, ms: seq<string>, k: nat)
    requires k < |ms|
    ensures Dedup(before + MatchTags(ms[..k + 1])) == AddNew(Dedup(before + MatchTags(ms[..k])), Tag("technique", ms[k]))
  {
    var prev := before + MatchTags(ms[..k]);
    assert MatchTags(ms[..k + 1]) == MatchTags(ms[..k]) + [Tag("technique", ms[k])];
    SeqAssoc(before, MatchTags(ms[..k]), [Tag("technique", ms[k])]);
    DedupSnoc(prev, Tag("technique", ms[k]));
  }

  lemma TechnicalStep(lower: string, cats: seq<Category>, ci: nat)
    requires ci < |cats|
    ensures TechnicalTags(lower, cats[..ci + 1]) == TechnicalTags(lower, cats[..ci]) + TermTags(lower, cats[ci].name, cats[ci].terms)
  {
    assert cats[..ci + 1][..ci] == cats[..ci];
  }

  lemma ImpactStep(lower: string, cats: seq<Category>, ci: nat)
    requires ci < |cats|
    ensures ImpactTags(lower, cats[..ci + 1]) == ImpactTags(lower, cats[..ci]) + PhraseTags(lower, cats[ci].name, cats[ci].terms)
  {
    assert cats[..ci + 1][..ci] == cats[..ci];
  }

  lemma TechniqueStep(text: string, scanners: seq<Scanner>, si: nat)
    requires si < |scanners|
    ensures TechniqueTags(text, scanners[..si + 1]) == TechniqueTags(text, scanners[..si]) + MatchTags(Matches(text, scanners[si], 0))
  {
    assert scanners[..si + 1][..si] == scanners[..si];
  }

  /** extractPatterns: the three phases in turn, collecting the tags in an insertion-ordered set. */
  method ExtractPatterns(text: string) returns (patterns: seq<string>)
    ensures patterns == Extracted(text)
  {
    var lower := ToLower(text);
    patterns := AddTechnical(lower, TechnicalPatterns, [], []);
    ghost var phase1 := TechnicalTags(lower, TechnicalPatterns);
    assert [] + phase1 == phase1;
    patterns := AddImpact(lower, ImpactPatterns, patterns, phase1);
    ghost var phase2 := phase1 + ImpactTags(lower, ImpactPatterns);
    patterns := AddTechniques(text, Scanners, patterns, phase2);
  }

  /** Phase 1: `category:term` for each technical term found in the lower-cased text. */
  method AddTechnical(lower: string, cats: seq<Category>, patterns: seq<string>, ghost emitted: seq<string>) returns (r: seq<string>)
    requires patterns == Dedup(emitted)
    ensures r == Dedup(emitted + TechnicalTags(lower, cats))
  {
    r := patterns;
    ghost var e := emitted;
    assert emitted + TechnicalTags(lower, cats[..0]) == emitted;
    for ci := 0 to |cats|
      invariant e == emitted + TechnicalTags(lower, cats[..ci])
      invariant r == Dedup(e)
    {
      r := AddTerms(lower, cats[ci].name, cats[ci].terms, r, e);
      TechnicalStep(lower, cats, ci);
      SeqAssoc(emitted, TechnicalTags(lower, cats[..ci]), TermTags(lower, cats[ci].name, cats[ci].terms));
      e := e + TermTags(lower, cats[ci].name, cats[ci].terms);
    }
    assert cats[..|cats|] == cats;
  }

  /** The inner loop of phase 1, over the terms of one category. */
  method AddTerms(lower: string, name: string, terms: seq<string>, patterns: seq<string>, ghost before: seq<string>) returns (r: seq<string>)
    requires patterns == Dedup(before)
    ensures r == Dedup(before + TermTags(lower, name, terms))
  {
    r := patterns;
    assert before + TermTags(lower, name, terms[..0]) == before;
    for ti := 0 to |terms|
      invariant r == Dedup(before + TermTags(lower, name, terms[..ti]))
    {
      TermStep(before, lower, name, terms, ti);
      if Contains(lower, terms[ti]) {
        r := AddNew(r, Tag(name, terms[ti]));
      }
    }
    assert terms[..|terms|] == terms;
  }

  /** Phase 2: `impact:category` for each impact phrase found in the lower-cased text. */
  method AddImpact(lower: string, cats: seq<Category>, patterns: seq<string>, ghost emitted: seq<string>) returns (r: seq<string>)
    requires patterns == Dedup(emitted)
    ensures r == Dedup(emitted + ImpactTags(lower, cats))
  {
    r := patterns;
    ghost var e := emitted;
    assert emitted + ImpactTags(lower, cats[..0]) == emitted;
    for ci := 0 to |cats|
      invariant e == emitted + ImpactTags(lower, cats[..ci])
      invariant r == Dedup(e)
    {
      r := AddPhrases(lower, cats[ci].name, cats[ci].terms, r, e);
      ImpactStep(lower, cats, ci);
      SeqAssoc(emitted, ImpactTags(lower, cats[..ci]), PhraseTags(lower, cats[ci].name, cats[ci].terms));
      e := e + PhraseTags(lower, cats[ci].name, cats[ci].terms);
    }
    assert cats[..|cats|] == cats;
  }

  /** The inner loop of phase 2, over the phrases of one category. */
  method AddPhrases(lower: string, name: string, phrases: seq<string>, patterns: seq<string>, ghost before: seq<string>) returns (r: seq<string>)
    requires patterns == Dedup(before)
    ensures r == Dedup(before + PhraseTags(lower, name, phrases))
  {
    r := patterns;
    assert before + PhraseTags(lower, name, phrases[..0]) == before;
    for ti := 0 to |phrases|
      invariant r == Dedup(before + PhraseTags(lower, name, phrases[..ti]))
    {
      PhraseStep(before, lower, name, phrases, ti);
      if Contains(lower, phrases[ti]) {
        r := AddNew(r, Tag("impact", name));
      }
    }
    assert phrases[..|phrases|] == phrases;
  }

  /** Phase 3: `technique:` and the matched text, for every match of every expression on the original text. */
  method AddTechniques(text: string, scanners: seq<Scanner>, patterns: seq<string>, ghost emitted: seq<string>) returns (r: seq<string>)
    requires patterns == Dedup(emitted)
    ensures r == Dedup(emitted + TechniqueTags(text, scanners))
  {
    r := patterns;
    ghost var e := emitted;
    assert emitted + TechniqueTags(text, scanners[..0]) == emitted;
    for si := 0 to |scanners|
      invariant e == emitted + TechniqueTags(text, scanners[..si])
      invariant r == Dedup(e)
    {
      var ms := Matches(text, scanners[si], 0);
      r := AddMatches(ms, r, e);
      TechniqueStep(text, scanners, si);
      SeqAssoc(emitted, TechniqueTags(text, scanners[..si]), MatchTags(ms));
      e := e + MatchTags(ms);
    }
    assert scanners[..|scanners|] == scanners;
  }

  /** The inner loop of phase 3, over the matches of one expression. */
  method AddMatches(ms: seq<string>, patterns: seq<string>, ghost before: seq<string>) returns (r: seq<string>)
    requires patterns == Dedup(before)
    ensures r == Dedup(before + MatchTags(ms))
  {
    r := patterns;
    assert before + MatchTags(ms[..0]) == before;
    for k := 0 to |ms|
      invariant r == Dedup(before + MatchTags(ms[..k]))
    {
      MatchStep(before, ms, k);
      r := AddNew(r, Tag("technique", ms[k]));
    }
    assert ms[..|ms|] == ms;
  }
}
