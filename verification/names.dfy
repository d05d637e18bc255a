/**
  The credited-as name parser. A free-form string is split into first, middle
  and last name in these steps:
    1. a stage-name shortcut on the lower-cased, untrimmed input;
    2. dot normalisation, so that "J.R.R. Tolkien" reads "J. R. R. Tolkien";
    3. quote protection, so that a quoted nickname stays one token;
    4. a split on single spaces, placeholders restored in every token;
    5. a right-to-left scan for the start of the last name, first over
       known suffixes, then over last-name particles;
    6. a left-to-right shift past leading first-name particles;
    7. assembly of the three fields from consecutive token spans.

  Steps 5 and 6 are methods whose loops keep the original's flags and
  boundaries; each is proved equal to a closed-form reference (`ScanLast`,
  `ScanMiddle`, `Bump` over `ParticleRunEnd`), and `Segment` composes the
  references into the boundaries the parser ends with.
 */
module Names {
  import opened Text
  import opened Quotes

  /** The four word lists, each holding lower-cased entries. */
  datatype Lexicons = Lexicons(
    stageNames: set<string>,
    firstNamePrefixes: set<string>,
    lastNamePrefixes: set<string>,
    lastNameSuffixes: set<string>)

  /** The three fields a credited-as string is split into. */
  datatype Name = Name(firstName: string, middleName: string, lastName: string)

  /** Token boundaries: `middle` is -1 when there is no middle name. */
  datatype Spans = Spans(middle: int, last: int)

  predicate IsSuffix(lex: Lexicons, tok: string) {
    Lower(tok) in lex.lastNameSuffixes
  }

  predicate IsLastNamePrefix(lex: Lexicons, tok: string) {
    Lower(tok) in lex.lastNamePrefixes
  }

  predicate IsFirstNamePrefix(lex: Lexicons, tok: string) {
    Lower(tok) in lex.firstNamePrefixes
  }

  // ---------------------------------------------------------------------
  // Dot normalisation

  /** Trimmed fragments, every one but the last followed by ". ". */
  function DotJoin(parts: seq<string>): (r: string)
    requires |parts| >= 1
    requires forall i :: 0 <= i < |parts| ==> '.' !in parts[i]
    ensures multiset(r)['.'] == |parts| - 1
    ensures forall i :: 0 <= i < |r| && r[i] == '.' ==> i + 1 < |r| && r[i + 1] == ' '
  {
    var head := Trim(parts[0]);
    TrimKeepsCount(parts[0], '.');
    if |parts| == 1 then
      head
    else
      var rest := DotJoin(parts[1..]);
      assert '.' !in head;
      DotGlue(head, rest);
      head + ". " + rest
  }

  lemma DotGlue(head: string, rest: string)
    requires '.' !in head
    requires forall i :: 0 <= i < |rest| && rest[i] == '.' ==> i + 1 < |rest| && rest[i + 1] == ' '
    ensures multiset(head + ". " + rest)['.'] == multiset(rest)['.'] + 1
    ensures forall i :: 0 <= i < |head + ". " + rest| && (head + ". " + rest)[i] == '.' ==>
      i + 1 < |head + ". " + rest| && (head + ". " + rest)[i + 1] == ' '
  {
    var r := head + ". " + rest;
    assert multiset(r) == multiset(head) + multiset(". ") + multiset(rest);
    assert multiset(". ")['.'] == 1 by {
      assert ". " == ['.'] + [' '];
    }
    assert forall i :: 0 <= i < |head| ==> r[i] == head[i];
    assert forall i :: |head| + 2 <= i < |r| ==> r[i] == rest[i - |head| - 2];
  }

  /** Every character that is neither whitespace nor a dot keeps its count. */
  lemma {:induction false} DotJoinKeeps(parts: seq<string>, c: char)
    requires |parts| >= 1
    requires forall i :: 0 <= i < |parts| ==> '.' !in parts[i]
    requires !IsWhite(c) && c != '.'
    ensures multiset(DotJoin(parts))[c] == multiset(Join(parts, "."))[c]
  {
    TrimKeepsCount(parts[0], c);
    if |parts| > 1 {
      DotJoinKeeps(parts[1..], c);
    }
  }

  /**
    The dot-normalised text: the dot count is kept, every dot is either the
    last character or followed by a space, and every character that is neither
    whitespace nor a dot keeps its count.
   */
  function NormalizeDots(fullname: string): (r: string)
    ensures multiset(r)['.'] == multiset(fullname)['.']
    ensures forall i :: 0 <= i < |r| && r[i] == '.' ==> i == |r| - 1 || r[i + 1] == ' '
    ensures forall c :: !IsWhite(c) && c != '.' ==> multiset(r)[c] == multiset(fullname)[c]
    ensures IsTrimmed(r)
  {
    var parts := Split(fullname, '.');
    var body := DotJoin(parts);
    TrimKeepsCount(body, '.');
    var r := Trim(body);
    forall c | !IsWhite(c) && c != '.' ensures multiset(r)[c] == multiset(fullname)[c] {
      TrimKeepsCount(body, c);
      DotJoinKeeps(parts, c);
      SplitJoin(fullname, '.');
    }
    DotsFollowed(body);
    r
  }

  /** Trimming keeps "every dot is last or followed by a space". */
  lemma DotsFollowed(body: string)
    requires forall i :: 0 <= i < |body| && body[i] == '.' ==> i + 1 < |body| && body[i + 1] == ' '
    ensures forall i :: 0 <= i < |Trim(body)| && Trim(body)[i] == '.' ==> i == |Trim(body)| - 1 || Trim(body)[i + 1] == ' '
  {
    var r := Trim(body);
    if r != [] {
      var lo := TrimLo(body);
      assert forall i :: 0 <= i < |r| ==> r[i] == body[lo + i];
    }
  }

  /** Tokens of the normalised, quote-protected text, each with its spaces restored. */
  function Tokens(fullname: string): (toks: seq<string>)
    ensures |toks| >= 1
    ensures forall i :: 0 <= i < |toks| ==> FreeOfPlaceholder(toks[i])
  {
    var parts := Split(ProtectQuotes(NormalizeDots(fullname)), ' ');
    var toks := RestoreEach(parts);
    assert forall i :: 0 <= i < |toks| ==> toks[i] == Restore(parts[i]);
    forall i | 0 <= i < |toks| ensures FreeOfPlaceholder(toks[i]) {
      RestoreRemovesPlaceholders(parts[i]);
    }
    toks
  }

  /** Rejoining the tokens with single spaces gives the normalised text back, when it held no `#`. */
  lemma TokensRejoin(fullname: string)
    requires '#' !in fullname
    ensures Join(Tokens(fullname), " ") == NormalizeDots(fullname)
  {
    var normalised := NormalizeDots(fullname);
    assert multiset(normalised)['#'] == 0;
    var masked := ProtectQuotes(normalised);
    var parts := Split(masked, ' ');
    RestoreJoin(parts);
    SplitJoin(masked, ' ');
    ProtectQuotesRoundTrip(normalised);
  }

  // ---------------------------------------------------------------------
  // Reference boundaries

  /** Rightmost index in `[1, hi)` whose token is not a known suffix, or 0 when there is none. */
  function NonSuffixBelow(toks: seq<string>, lex: Lexicons, hi: nat): (k: nat)
    requires hi <= |toks|
    ensures k == 0 || (1 <= k < hi && !IsSuffix(lex, toks[k]))
    ensures forall j :: k < j < hi && 1 <= j ==> IsSuffix(lex, toks[j])
    decreases hi
  {
    if hi <= 1 then 0
    else if !IsSuffix(lex, toks[hi - 1]) then hi - 1
    else NonSuffixBelow(toks, lex, hi - 1)
  }

  /** Where the suffix scan stops: the rightmost non-suffix token after the first, or 0. */
  function SuffixStop(toks: seq<string>, lex: Lexicons): nat {
    NonSuffixBelow(toks, lex, |toks|)
  }

  /** Leftmost index in `[lo, k)` whose token is a last-name particle, or `k` when there is none. */
  function LeftmostParticle(toks: seq<string>, lex: Lexicons, lo: nat, k: nat): (l: nat)
    requires lo <= k < |toks|
    ensures lo <= l <= k
    ensures l < k ==> IsLastNamePrefix(lex, toks[l])
    ensures forall j :: lo <= j < l ==> !IsLastNamePrefix(lex, toks[j])
    decreases k - lo
  {
    if lo == k then k
    else if IsLastNamePrefix(lex, toks[lo]) then lo
    else LeftmostParticle(toks, lex, lo + 1, k)
  }

  /**
    Start of the last name after the right-to-left scan: the leftmost particle
    left of the suffix stop, else the stop itself; 1 when every token after the
    first is a suffix.
   */
  function ScanLast(toks: seq<string>, lex: Lexicons): nat
    requires |toks| >= 2
  {
    var k := SuffixStop(toks, lex);
    if k == 0 then 1 else LeftmostParticle(toks, lex, 1, k)
  }

  /** Middle-name start after the scan: 1 when a non-particle lies between the first token and the stop. */
  function ScanMiddle(toks: seq<string>, lex: Lexicons): int
    requires |toks| >= 2
  {
    var k := SuffixStop(toks, lex);
    if exists j :: 1 <= j < k && !IsLastNamePrefix(lex, toks[j]) then 1 else -1
  }

  /** First index from `i` on whose token is not a first-name particle, or the last index. */
  function ParticleRunEnd(toks: seq<string>, lex: Lexicons, i: nat): (e: nat)
    requires 1 <= i < |toks|
    ensures i <= e < |toks|
    ensures forall j :: i <= j < e ==> IsFirstNamePrefix(lex, toks[j])
    ensures e < |toks| - 1 ==> !IsFirstNamePrefix(lex, toks[e])
    decreases |toks| - i
  {
    if i == |toks| - 1 || !IsFirstNamePrefix(lex, toks[i]) then i
    else ParticleRunEnd(toks, lex, i + 1)
  }

  /** A boundary inside the leading particle run, up to and including its end `e`, moves to `e + 1`. */
  function Bump(b: int, e: nat): int {
    if 1 <= b <= e then e + 1 else b
  }

  predicate ValidSpans(sp: Spans, n: nat) {
    1 <= sp.last <= n && (sp.middle == -1 || 1 <= sp.middle < sp.last)
  }

  /**
    The boundaries the parser ends with, for two or more tokens: the first
    token always belongs to the first name, the last name may be empty only
    after a particle shift, and a middle name, when there is one, is non-empty
    and lies between the two.
   */
  function Segment(toks: seq<string>, lex: Lexicons): (sp: Spans)
    requires |toks| >= 2
    ensures ValidSpans(sp, |toks|)
  {
    var m0 := ScanMiddle(toks, lex);
    var l0 := ScanLast(toks, lex);
    var e := ParticleRunEnd(toks, lex, 1);
    var shift := IsFirstNamePrefix(lex, toks[0]);
    var m1 := if shift then Bump(m0, e) else m0;
    var l1 := if shift then Bump(l0, e) else l0;
    if m1 == l1 then Spans(-1, l1) else Spans(m1, l1)
  }

  // ---------------------------------------------------------------------
  // The original's loops

  /**
    The right-to-left scan over tokens `n-1` down to 1, with the original's
    `canBeSuffix` / `canBePrefix` flags: in suffix mode every token moves the
    boundary and the first non-suffix ends that mode; afterwards a particle
    moves the boundary and any other token starts the middle name at 1.
    Particles are still honoured after a non-particle, as `canBePrefix` is
    never reset.
   */
  method ScanLastName(toks: seq<string>, lex: Lexicons) returns (beginOfMiddleName: int, beginOfLastName: int)
    requires |toks| >= 2
    ensures beginOfLastName == ScanLast(toks, lex)
    ensures beginOfMiddleName == ScanMiddle(toks, lex)
    ensures 1 <= beginOfLastName <= |toks| - 1
    ensures beginOfMiddleName == -1 || beginOfMiddleName == 1
  {
    beginOfMiddleName := -1;
    beginOfLastName := -1;
    var canBeSuffix := true;
    var canBePrefix := false;
    ghost var stop := 0;
    var i := |toks| - 1;
    while i >= 1
      invariant 0 <= i <= |toks| - 1
      invariant canBePrefix == !canBeSuffix
      invariant canBeSuffix <==> forall j :: i < j < |toks| ==> IsSuffix(lex, toks[j])
      invariant canBeSuffix ==> beginOfMiddleName == -1
      invariant canBeSuffix ==> beginOfLastName == (if i == |toks| - 1 then -1 else i + 1)
      invariant !canBeSuffix ==> i < stop < |toks| && stop == SuffixStop(toks, lex)
      invariant !canBeSuffix ==> beginOfLastName == LeftmostParticle(toks, lex, i + 1, stop)
      invariant !canBeSuffix ==>
        (beginOfMiddleName == 1 <==> exists j :: i < j < stop && !IsLastNamePrefix(lex, toks[j]))
      invariant beginOfMiddleName == -1 || beginOfMiddleName == 1
      decreases i
    {
      if canBeSuffix {
        beginOfLastName := i;
        if !IsSuffix(lex, toks[i]) {
          canBeSuffix := false;
          canBePrefix := true;
          stop := i;
        }
      } else if canBePrefix && IsLastNamePrefix(lex, toks[i]) {
        beginOfLastName := i;
      } else if i > 0 && beginOfLastName > 1 {
        beginOfMiddleName := 1;
      }
      i := i - 1;
    }
  }

  /**
    The left-to-right shift when the first token is a first-name particle:
    at each index the boundaries equal to it move one step right, before the
    token there is tested; the loop stops after the first non-particle.
   */
  method ShiftFirstParticles(toks: seq<string>, lex: Lexicons, middle: int, last: int) returns (m: int, l: int)
    requires |toks| >= 2
    ensures !IsFirstNamePrefix(lex, toks[0]) ==> m == middle && l == last
    ensures IsFirstNamePrefix(lex, toks[0]) ==>
      var e := ParticleRunEnd(toks, lex, 1);
      m == Bump(middle, e) && l == Bump(last, e)
  {
    m, l := middle, last;
    if IsFirstNamePrefix(lex, toks[0]) {
      var i := 1;
      while i < |toks|
        invariant 1 <= i <= |toks|
        invariant forall j :: 1 <= j < i ==> IsFirstNamePrefix(lex, toks[j])
        invariant m == (if 1 <= middle < i then i else middle)
        invariant l == (if 1 <= last < i then i else last)
        decreases |toks| - i
      {
        if m == i {
          m := m + 1;
        }
        if l == i {
          l := l + 1;
        }
        if IsFirstNamePrefix(lex, toks[i]) {
          i := i + 1;
        } else {
          break;
        }
      }
    }
  }

  // ---------------------------------------------------------------------
  // Assembly

  /** One field: the tokens appended with a leading space each, then trimmed. */
  function Field(ts: seq<string>): string {
    Trim(SpaceJoin(ts))
  }

  /** The three fields from the spans `[0, middle or last)`, `[middle, last)` and `[last, n)`, each trimmed. */
  function Assemble(toks: seq<string>, sp: Spans): (name: Name)
    requires ValidSpans(sp, |toks|)
    ensures IsTrimmed(name.firstName) && IsTrimmed(name.middleName) && IsTrimmed(name.lastName)
  {
    if sp.middle > 0 then
      Name(Field(toks[..sp.middle]), Field(toks[sp.middle..sp.last]), Field(toks[sp.last..]))
    else
      Name(Field(toks[..sp.last]), "", Field(toks[sp.last..]))
  }

  predicate AllFree(toks: seq<string>) {
    forall i :: 0 <= i < |toks| ==> FreeOfPlaceholder(toks[i])
  }

  lemma FieldFree(ts: seq<string>)
    requires AllFree(ts)
    ensures FreeOfPlaceholder(Field(ts))
  {
    FreeSpaceJoin(ts);
    FreeTrim(SpaceJoin(ts));
  }

  /** No field holds the placeholder when no token does. */
  lemma AssembleFree(toks: seq<string>, sp: Spans)
    requires ValidSpans(sp, |toks|)
    requires AllFree(toks)
    ensures var name := Assemble(toks, sp);
      FreeOfPlaceholder(name.firstName) && FreeOfPlaceholder(name.middleName) && FreeOfPlaceholder(name.lastName)
  {
    var firstEnd := if sp.middle > 0 then sp.middle else sp.last;
    FieldFree(toks[..firstEnd]);
    FieldFree(toks[sp.last..]);
    if sp.middle > 0 {
      FieldFree(toks[sp.middle..sp.last]);
    } else {
      assert FreeOfPlaceholder([]);
    }
  }

  /** A token with something in it and no surrounding whitespace. */
  predicate Clean(t: string) {
    t != [] && IsTrimmed(t)
  }

  predicate AllClean(ts: seq<string>) {
    forall i :: 0 <= i < |ts| ==> Clean(ts[i])
  }

  lemma AllCleanSlice(ts: seq<string>, lo: nat, hi: nat)
    requires AllClean(ts) && lo <= hi <= |ts|
    ensures AllClean(ts[lo..hi]) && AllClean(ts[..hi]) && AllClean(ts[lo..])
  {
    assert forall i :: 0 <= i < hi - lo ==> ts[lo..hi][i] == ts[lo + i];
    assert forall i :: 0 <= i < |ts| - lo ==> ts[lo..][i] == ts[lo + i];
  }

  /** The fields glued back together with single spaces, skipping empty ones. */
  function Rejoin(name: Name): string {
    name.firstName
      + (if name.middleName != [] then " " + name.middleName else [])
      + (if name.lastName != [] then " " + name.lastName else [])
  }

  lemma {:induction false} JoinClean(ts: seq<string>)
    requires ts != [] && AllClean(ts)
    ensures Clean(Join(ts, " "))
    ensures Join(ts, " ")[0] == ts[0][0]
  {
    if |ts| > 1 {
      AllCleanSlice(ts, 1, |ts|);
      JoinClean(ts[1..]);
      var j := Join(ts, " ");
      assert j == ts[0] + " " + Join(ts[1..], " ");
      assert j[|j| - 1] == Join(ts[1..], " ")[|Join(ts[1..], " ")| - 1];
    }
  }

  lemma FieldOfClean(ts: seq<string>)
    requires AllClean(ts)
    ensures Field(ts) == Join(ts, " ")
  {
    if ts != [] {
      SpaceJoinIsJoin(ts);
      JoinClean(ts);
      TrimLeadingSpace(Join(ts, " "));
    }
  }

  /** Two adjacent spans of clean tokens: their fields glue into the joined union. */
  lemma Glue(a: seq<string>, b: seq<string>)
    requires a != [] && AllClean(a) && AllClean(b)
    ensures Field(b) != [] <==> b != []
    ensures Join(a, " ") + (if Field(b) != [] then " " + Field(b) else []) == Join(a + b, " ")
  {
    FieldOfClean(b);
    if b != [] {
      JoinClean(b);
      JoinAppend(a, b, " ");
    } else {
      assert a + b == a;
    }
  }

  /**
    Assembly loses nothing and adds nothing: when every token is clean, the
    three fields glued back with single spaces are the tokens joined with
    single spaces.
   */
  lemma AssembleRejoins(toks: seq<string>, sp: Spans)
    requires ValidSpans(sp, |toks|)
    requires AllClean(toks)
    ensures Rejoin(Assemble(toks, sp)) == Join(toks, " ")
  {
    AllCleanSlice(toks, sp.last, |toks|);
    if sp.middle > 0 {
      var a, b, c := toks[..sp.middle], toks[sp.middle..sp.last], toks[sp.last..];
      assert Assemble(toks, sp) == Name(Field(a), Field(b), Field(c));
      AllCleanSlice(toks, sp.middle, sp.last);
      SlicesCover(toks, sp.middle, sp.last);
      RejoinThree(a, b, c);
    } else {
      var a, c := toks[..sp.last], toks[sp.last..];
      assert Assemble(toks, sp) == Name(Field(a), "", Field(c));
      AllCleanSlice(toks, 0, sp.last);
      assert a + c == toks;
      RejoinTwo(a, c);
    }
  }

  lemma SlicesCover(toks: seq<string>, m: nat, l: nat)
    requires m <= l <= |toks|
    ensures toks[..m] + toks[m..l] + toks[l..] == toks
  {
  }

  lemma RejoinTwo(a: seq<string>, c: seq<string>)
    requires a != [] && AllClean(a) && AllClean(c)
    ensures Rejoin(Name(Field(a), "", Field(c))) == Join(a + c, " ")
  {
    RejoinWithoutMiddle(Field(a), Field(c));
    GlueFields(a, c);
  }

  lemma RejoinWithoutMiddle(first: string, last: string)
    ensures Rejoin(Name(first, "", last)) == first + (if last != [] then " " + last else [])
  {
  }

  lemma GlueFields(a: seq<string>, c: seq<string>)
    requires a != [] && AllClean(a) && AllClean(c)
    ensures Field(a) + (if Field(c) != [] then " " + Field(c) else []) == Join(a + c, " ")
  {
    Glue(a, c);
    FieldOfClean(a);
  }

  lemma RejoinThree(a: seq<string>, b: seq<string>, c: seq<string>)
    requires a != [] && b != [] && AllClean(a) && AllClean(b) && AllClean(c)
    ensures Rejoin(Name(Field(a), Field(b), Field(c))) == Join(a + b + c, " ")
  {
    FieldOfClean(a);
    Glue(a, b);
    assert AllClean(a + b);
    FieldOfClean(a + b);
    Glue(a + b, c);
  }

  // ---------------------------------------------------------------------
  // The parser

  /** The parser's result as a composition of the reference pieces. */
  function Parse(fullname: string, lex: Lexicons): Name {
    if Lower(fullname) in lex.stageNames then Name(fullname, "", "")
    else
      var toks := Tokens(fullname);
      if |toks| == 1 then Name(toks[0], "", "") else Assemble(toks, Segment(toks, lex))
  }

  /**
    `ParsePersonName`. A stage name (compared lower-cased, untrimmed) is kept
    whole as the first name. Otherwise a single token is the first name, and
    two or more tokens are cut at the scanned boundaries; no field then holds
    the placeholder.
   */
  method ParsePersonName(fullname: string, lex: Lexicons) returns (name: Name)
    ensures name == Parse(fullname, lex)
    ensures Lower(fullname) in lex.stageNames ==> name == Name(fullname, "", "")
    ensures Lower(fullname) !in lex.stageNames && |Tokens(fullname)| == 1 ==>
      name == Name(Tokens(fullname)[0], "", "")
    ensures Lower(fullname) !in lex.stageNames && |Tokens(fullname)| >= 2 ==>
      name == Assemble(Tokens(fullname), Segment(Tokens(fullname), lex))
    ensures Lower(fullname) !in lex.stageNames ==>
      FreeOfPlaceholder(name.firstName) && FreeOfPlaceholder(name.middleName) && FreeOfPlaceholder(name.lastName)
  {
    if Lower(fullname) in lex.stageNames {
      return Name(fullname, "", "");
    }
    var normalised := NormalizeDots(fullname);
    var masked := ProtectQuotes(normalised);
    var toks := RestoreEach(Split(masked, ' '));
    assert toks == Tokens(fullname);
    if |toks| == 1 {
      assert FreeOfPlaceholder([]);
      return Name(toks[0], "", "");
    }
    var beginOfMiddleName, beginOfLastName := ScanLastName(toks, lex);
    beginOfMiddleName, beginOfLastName := ShiftFirstParticles(toks, lex, beginOfMiddleName, beginOfLastName);
    if beginOfMiddleName == beginOfLastName {
      beginOfMiddleName := -1;
    }
    assert Spans(beginOfMiddleName, beginOfLastName) == Segment(toks, lex);
    name := Assemble(toks, Spans(beginOfMiddleName, beginOfLastName));
    AssembleFree(toks, Spans(beginOfMiddleName, beginOfLastName));
  }

  // ---------------------------------------------------------------------
  // Worked examples

  /** A last-name particle opens the last name: "Ludwig van Beethoven". */
  lemma ParticleExample()
    ensures var toks := ["Ludwig", "van", "Beethoven"];
      Segment(toks, Lexicons({}, {}, {"van"}, {})) == Spans(-1, 1)
  {
    var toks := ["Ludwig", "van", "Beethoven"];
    var lex := Lexicons({}, {}, {"van"}, {});
    assert Lower("van") == "van";
    assert SuffixStop(toks, lex) == 2;
    assert LeftmostParticle(toks, lex, 1, 2) == 1;
  }

  /**
    A known suffix stays with the last name, and the remaining token before it
    is a middle name: "Martin Luther King Jr." gives middle "Luther" and last
    "King Jr.".
   */
  lemma SuffixExample()
    ensures var toks := ["Martin", "Luther", "King", "Jr."];
      Segment(toks, Lexicons({}, {}, {}, {"jr."})) == Spans(1, 2)
  {
    var toks := ["Martin", "Luther", "King", "Jr."];
    var lex := Lexicons({}, {}, {}, {"jr."});
    assert Lower("Jr.") == "jr.";
    assert IsSuffix(lex, toks[3]);
    assert !IsSuffix(lex, toks[2]) by {
      assert |Lower("King")| == 4;
    }
    assert NonSuffixBelow(toks, lex, 3) == 2;
    assert SuffixStop(toks, lex) == 2;
    assert LeftmostParticle(toks, lex, 1, 2) == 2;
    assert !IsLastNamePrefix(lex, toks[1]);
  }
  /**
    The fields of the same example: first name "Martin", middle name "Luther"
    and last name "King Jr.", assembled from the four tokens.
   */
  lemma SuffixExampleFields()
    ensures var toks := ["Martin", "Luther", "King", "Jr."];
      Assemble(toks, Segment(toks, Lexicons({}, {}, {}, {"jr."}))) == Name("Martin", "Luther", "King Jr.")
  {
    SuffixExample();
    SuffixExampleSpans();
    FieldSingle("Martin");
    FieldSingle("Luther");
    FieldKingJr();
  }

  lemma SuffixExampleSpans()
    ensures Assemble(["Martin", "Luther", "King", "Jr."], Spans(1, 2))
      == Name(Field(["Martin"]), Field(["Luther"]), Field(["King", "Jr."]))
  {
    var toks := ["Martin", "Luther", "King", "Jr."];
    assert toks[..1] == ["Martin"];
    assert toks[1..2] == ["Luther"];
    assert toks[2..] == ["King", "Jr."];
  }

  lemma FieldKingJr()
    ensures Field(["King", "Jr."]) == "King Jr."
  {
    SpaceJoinPair("King", "Jr.");
    assert SpaceJoin(["King", "Jr."]) == " " + "King Jr.";
    TrimLeadingSpace("King Jr.");
    assert Field(["King", "Jr."]) == Trim(" " + "King Jr.");
  }

  lemma SpaceJoinPair(a: string, b: string)
    ensures SpaceJoin([a, b]) == " " + a + " " + b
  {
    assert [b][1..] == [];
    assert SpaceJoin([b]) == " " + b;
    assert [a, b][1..] == [b];
    assert SpaceJoin([a, b]) == " " + a + (" " + b);
  }

  /** A single trimmed, non-empty token is its own field. */
  lemma FieldSingle(t: string)
    requires t != [] && IsTrimmed(t)
    ensures Field([t]) == t
  {
    assert [t][1..] == [];
    assert SpaceJoin([t]) == " " + t;
    TrimLeadingSpace(t);
  }
}
