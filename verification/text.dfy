/**
  String helpers the name parser is built from: ASCII lowering, whitespace
  trimming, splitting on a separator, joining, substring replacement and the
  placeholder that stands in for a protected space. Each mirrors the .NET
  `String` member the parser calls, restricted to what the parser relies on.
 */
module Text {

  /** The private sequence that replaces a space inside a quoted span. */
  const Placeholder: string := "#SpacePlaceHolder#"

  /** ASCII whitespace: space, tab, line feed, vertical tab, form feed, carriage return. */
  predicate IsWhite(c: char) {
    c == ' ' || ('\t' <= c <= '\r')
  }

  function LowerChar(c: char): char {
    if 'A' <= c <= 'Z' then (c as int + 32) as char else c
  }

  /**
    `String.ToLower`, restricted to ASCII letters: an upper-case letter becomes
    the same letter in lower case, everything else is kept, and no upper-case
    letter is left.
   */
  function Lower(s: string): (r: string)
    ensures |r| == |s|
    ensures forall i :: 0 <= i < |s| ==> r[i] == LowerChar(s[i])
    ensures forall i :: 0 <= i < |s| && 'A' <= s[i] <= 'Z' ==> 'a' <= r[i] <= 'z' && r[i] as int == s[i] as int + 32
    ensures forall i :: 0 <= i < |s| && !('A' <= s[i] <= 'Z') ==> r[i] == s[i]
    ensures forall i :: 0 <= i < |r| ==> !('A' <= r[i] <= 'Z')
  {
    seq(|s|, i requires 0 <= i < |s| => LowerChar(s[i]))
  }

  // ---------------------------------------------------------------------
  // Trim

  /** Number of leading whitespace characters. */
  function TrimLo(s: string): (lo: nat)
    ensures lo <= |s|
    ensures forall i :: 0 <= i < lo ==> IsWhite(s[i])
    ensures lo < |s| ==> !IsWhite(s[lo])
  {
    if s == [] || !IsWhite(s[0]) then 0 else 1 + TrimLo(s[1..])
  }

  /** Length of `s` once its trailing whitespace is cut off. */
  function TrimHi(s: string): (hi: nat)
    ensures hi <= |s|
    ensures forall i :: hi <= i < |s| ==> IsWhite(s[i])
    ensures 0 < hi ==> !IsWhite(s[hi - 1])
  {
    if s == [] || !IsWhite(s[|s| - 1]) then |s| else TrimHi(s[..|s| - 1])
  }

  predicate IsTrimmed(s: string) {
    s == [] || (!IsWhite(s[0]) && !IsWhite(s[|s| - 1]))
  }

  /** `String.Trim`: drops leading and trailing whitespace. */
  function Trim(s: string): (r: string)
    ensures IsTrimmed(r)
    ensures r == [] ==> forall i :: 0 <= i < |s| ==> IsWhite(s[i])
    ensures r != [] ==> TrimLo(s) < TrimHi(s) && r == s[TrimLo(s)..TrimHi(s)]
  {
    var lo := TrimLo(s);
    if lo == |s| then [] else s[lo..TrimHi(s)]
  }

  /** Trimming removes only whitespace: every other character keeps its count. */
  lemma TrimKeepsCount(s: string, c: char)
    requires !IsWhite(c)
    ensures multiset(Trim(s))[c] == multiset(s)[c]
  {
    var r := Trim(s);
    if r == [] {
      assert c !in s;
    } else {
      var lo, hi := TrimLo(s), TrimHi(s);
      assert s == s[..lo] + s[lo..hi] + s[hi..];
      assert c !in s[..lo];
      assert c !in s[hi..];
    }
  }

  /** A string already trimmed and preceded by one space trims back to itself. */
  lemma TrimLeadingSpace(j: string)
    requires j != [] && IsTrimmed(j)
    ensures Trim(" " + j) == j
  {
    var s := " " + j;
    assert s[1..] == j;
    assert TrimLo(s[1..]) == 0;
    assert TrimLo(s) == 1;
    assert TrimHi(s) == |s|;
  }

  // ---------------------------------------------------------------------
  // Split and Join

  /** `String.Split(sep)`: the fragments between occurrences of `sep`, empty ones kept. */
  function Split(s: string, sep: char): (parts: seq<string>)
    ensures |parts| == multiset(s)[sep] + 1
    ensures forall i :: 0 <= i < |parts| ==> sep !in parts[i]
  {
    if s == [] then [[]]
    else
      var rest := Split(s[1..], sep);
      assert s == [s[0]] + s[1..];
      if s[0] == sep then [[]] + rest
      else [[s[0]] + rest[0]] + rest[1..]
  }

  /** `String.Join(sep, parts)`. */
  function Join(parts: seq<string>, sep: string): string {
    if |parts| == 0 then []
    else if |parts| == 1 then parts[0]
    else parts[0] + sep + Join(parts[1..], sep)
  }

  /** Joining the fragments of a split with the separator gives the input back. */
  lemma {:induction false} SplitJoin(s: string, sep: char)
    ensures Join(Split(s, sep), [sep]) == s
  {
    if s != [] {
      SplitJoin(s[1..], sep);
      var rest := Split(s[1..], sep);
      assert s == [s[0]] + s[1..];
      if s[0] == sep {
        assert Split(s, sep) == [[]] + rest;
        JoinEmptyHead(rest, [sep]);
      } else {
        assert Split(s, sep) == [[s[0]] + rest[0]] + rest[1..];
        JoinConsHead(s[0], rest, [sep]);
      }
    }
  }

  /** An empty first fragment contributes only its separator. */
  lemma JoinEmptyHead(rest: seq<string>, sep: string)
    requires rest != []
    ensures Join([[]] + rest, sep) == sep + Join(rest, sep)
  {
    assert ([[]] + rest)[1..] == rest;
  }

  /** A character put in front of the first fragment ends up in front of the join. */
  lemma JoinConsHead(c: char, rest: seq<string>, sep: string)
    requires rest != []
    ensures Join([[c] + rest[0]] + rest[1..], sep) == [c] + Join(rest, sep)
  {
    var parts := [[c] + rest[0]] + rest[1..];
    assert parts[1..] == rest[1..];
    if |rest| > 1 {
      assert Join(rest, sep) == rest[0] + sep + Join(rest[1..], sep);
      assert Join(parts, sep) == [c] + rest[0] + sep + Join(rest[1..], sep);
    }
  }

  /** Appending `" " + p` for every part, as a `StringBuilder` loop does. */
  function SpaceJoin(parts: seq<string>): string {
    if parts == [] then [] else " " + parts[0] + SpaceJoin(parts[1..])
  }

  lemma {:induction false} SpaceJoinIsJoin(parts: seq<string>)
    requires parts != []
    ensures SpaceJoin(parts) == " " + Join(parts, " ")
  {
    if |parts| > 1 {
      SpaceJoinIsJoin(parts[1..]);
    }
  }

  lemma {:induction false} JoinAppend(a: seq<string>, b: seq<string>, sep: string)
    requires a != [] && b != []
    ensures Join(a + b, sep) == Join(a, sep) + sep + Join(b, sep)
  {
    if |a| == 1 {
      assert (a + b)[1..] == b;
    } else {
      assert (a + b)[1..] == a[1..] + b;
      JoinAppend(a[1..], b, sep);
    }
  }

  // ---------------------------------------------------------------------
  // Replace and the placeholder

  /** `String.Replace(pat, rep)`: every non-overlapping occurrence, left to right. */
  function Replace(s: string, pat: string, rep: string): string
    requires pat != []
    decreases |s|
  {
    if s == [] then []
    else if pat <= s then rep + Replace(s[|pat|..], pat, rep)
    else [s[0]] + Replace(s[1..], pat, rep)
  }

  /** Every space becomes the placeholder. */
  function Protect(s: string): string {
    Replace(s, " ", Placeholder)
  }

  /** Every placeholder becomes a space again. */
  function Restore(s: string): string {
    Replace(s, Placeholder, " ")
  }

  lemma PlaceholderChars()
    ensures |Placeholder| == 18 && Placeholder[0] == '#'
    ensures ' ' !in Placeholder && '\'' !in Placeholder && '"' !in Placeholder
  {
  }

  /** `Protect` looks at one character at a time, since its pattern is one character long. */
  lemma ProtectUnfold(s: string)
    requires s != []
    ensures Protect(s) == (if s[0] == ' ' then Placeholder else [s[0]]) + Protect(s[1..])
  {
    assert (" " <= s) == (s[0] == ' ');
  }

  lemma {:induction false} ProtectAppend(a: string, b: string)
    ensures Protect(a + b) == Protect(a) + Protect(b)
  {
    if a != [] {
      assert (a + b)[0] == a[0];
      assert (a + b)[1..] == a[1..] + b;
      ProtectUnfold(a + b);
      ProtectUnfold(a);
      ProtectAppend(a[1..], b);
    } else {
      assert a + b == b;
    }
  }

  lemma ProtectChar(c: char)
    ensures Protect([c]) == if c == ' ' then Placeholder else [c]
  {
    ProtectUnfold([c]);
    assert [c][1..] == [];
  }

  /** Protecting a string adds no character other than the placeholder's. */
  lemma {:induction false} ProtectAvoids(s: string, c: char)
    requires c != ' ' && c !in Placeholder && c !in s
    ensures c !in Protect(s)
  {
    if s != [] {
      ProtectUnfold(s);
      ProtectAvoids(s[1..], c);
    }
  }

  predicate PlaceholderAt(s: string, i: int) {
    0 <= i && i + |Placeholder| <= |s| && s[i..i + |Placeholder|] == Placeholder
  }

  predicate FreeOfPlaceholder(s: string) {
    forall i | 0 <= i <= |s| :: !PlaceholderAt(s, i)
  }

  /**
    Restoring copies every character of its input that does not start a
    placeholder; so a space-free prefix of the output is a prefix of the input.
   */
  lemma {:induction false} RestoreCopiesSpaceFreePrefix(y: string, k: nat)
    requires k <= |Restore(y)|
    ensures (forall i :: 0 <= i < k ==> Restore(y)[i] != ' ') ==> k <= |y| && Restore(y)[..k] == y[..k]
  {
    if k > 0 {
      if Placeholder <= y {
        assert Restore(y)[0] == ' ';
      } else {
        var rest := Restore(y[1..]);
        assert Restore(y) == [y[0]] + rest;
        assert forall i :: 0 <= i < k - 1 ==> rest[i] == Restore(y)[i + 1];
        RestoreCopiesSpaceFreePrefix(y[1..], k - 1);
      }
    }
  }

  /** No placeholder survives a restore, whatever the input held. */
  lemma {:induction false} RestoreRemovesPlaceholders(y: string)
    ensures FreeOfPlaceholder(Restore(y))
  {
    PlaceholderChars();
    var r := Restore(y);
    if y != [] {
      var skip := if Placeholder <= y then 18 else 1;
      var rest := Restore(y[skip..]);
      RestoreRemovesPlaceholders(y[skip..]);
      assert r == (if Placeholder <= y then " " else [y[0]]) + rest;
      forall i | 0 <= i <= |r| ensures !PlaceholderAt(r, i) {
        if i + 18 <= |r| {
          if i > 0 {
            assert r[i..i + 18] == rest[i - 1..i - 1 + 18];
            assert !PlaceholderAt(rest, i - 1);
          } else if Placeholder <= y {
            assert r[0..18][0] == ' ';
          } else if exists j :: 0 <= j < 17 && rest[j] == ' ' {
            var j :| 0 <= j < 17 && rest[j] == ' ';
            assert r[0..18][j + 1] == ' ';
            assert Placeholder[j + 1] != ' ';
          } else {
            RestoreCopiesSpaceFreePrefix(y[1..], 17);
            assert r[0..18] == y[0..18];
          }
        }
      }
    }
  }

  /** A placeholder never straddles a space, since it holds none. */
  lemma FreeAroundSpace(a: string, b: string)
    requires FreeOfPlaceholder(a) && FreeOfPlaceholder(b)
    ensures FreeOfPlaceholder(a + " " + b)
  {
    PlaceholderChars();
    var s := a + " " + b;
    forall i | 0 <= i <= |s| ensures !PlaceholderAt(s, i) {
      if i + 18 <= |s| {
        if i + 18 <= |a| {
          assert s[i..i + 18] == a[i..i + 18];
          assert !PlaceholderAt(a, i);
        } else if i > |a| {
          SliceOfConcat(a + " ", b, i, i + 18);
          assert s[i..i + 18] == b[i - |a| - 1..i - |a| - 1 + 18];
          assert !PlaceholderAt(b, i - |a| - 1);
        } else {
          assert s[i..i + 18][|a| - i] == ' ';
          assert Placeholder[|a| - i] != ' ';
        }
      }
    }
  }

  lemma SliceOfConcat(a: string, b: string, lo: nat, hi: nat)
    requires |a| <= lo <= hi <= |a| + |b|
    ensures (a + b)[lo..hi] == b[lo - |a|..hi - |a|]
  {
    assert forall k :: 0 <= k < hi - lo ==> (a + b)[lo..hi][k] == b[lo - |a| + k];
  }

  lemma SliceOfSlice(s: string, lo: nat, hi: nat, a: nat, b: nat)
    requires lo <= hi <= |s| && a <= b <= hi - lo
    ensures s[lo..hi][a..b] == s[lo + a..lo + b]
  {
    var t := s[lo..hi];
    assert forall j :: 0 <= j < b - a ==> t[a..b][j] == t[a + j] == s[lo + a + j];
  }

  lemma FreeSlice(s: string, lo: nat, hi: nat)
    requires lo <= hi <= |s| && FreeOfPlaceholder(s)
    ensures FreeOfPlaceholder(s[lo..hi])
  {
    var t := s[lo..hi];
    PlaceholderChars();
    forall i | 0 <= i <= |t| ensures !PlaceholderAt(t, i) {
      if i + |Placeholder| <= |t| {
        SliceOfSlice(s, lo, hi, i, i + |Placeholder|);
        assert !PlaceholderAt(s, lo + i);
      }
    }
  }

  lemma FreeTrim(s: string)
    requires FreeOfPlaceholder(s)
    ensures FreeOfPlaceholder(Trim(s))
  {
    if Trim(s) != [] {
      FreeSlice(s, TrimLo(s), TrimHi(s));
    }
  }

  /** Concatenation keeps freedom when the right part is empty or opens with a space. */
  lemma FreeConcatNoStraddle(a: string, b: string)
    requires FreeOfPlaceholder(a) && FreeOfPlaceholder(b)
    requires b == [] || b[0] == ' '
    ensures FreeOfPlaceholder(a + b)
  {
    if b == [] {
      assert a + b == a;
    } else {
      assert b == " " + b[1..];
      FreeSlice(b, 1, |b|);
      assert b[1..|b|] == b[1..];
      FreeAroundSpace(a, b[1..]);
      assert a + b == a + " " + b[1..];
    }
  }

  lemma {:induction false} FreeSpaceJoin(parts: seq<string>)
    requires forall i :: 0 <= i < |parts| ==> FreeOfPlaceholder(parts[i])
    ensures FreeOfPlaceholder(SpaceJoin(parts))
  {
    if parts != [] {
      FreeSpaceJoin(parts[1..]);
      assert FreeOfPlaceholder([]);
      FreeAroundSpace([], parts[0]);
      assert [] + " " + parts[0] == " " + parts[0];
      FreeConcatNoStraddle(" " + parts[0], SpaceJoin(parts[1..]));
    }
  }

  /**
    A placeholder never straddles a space, so restoring commutes with joining
    on spaces.
   */
  lemma {:induction false} RestoreAroundSpace(a: string, b: string)
    ensures Restore(a + " " + b) == Restore(a) + " " + Restore(b)
  {
    PlaceholderChars();
    var s := a + " " + b;
    if a == [] {
      assert s == " " + b;
      assert !(Placeholder <= s);
      assert s[1..] == b;
    } else if Placeholder <= s {
      assert |a| >= 18 by {
        assert forall j :: 0 <= j < 18 ==> s[j] == Placeholder[j];
        assert s[|a|] == ' ';
      }
      assert Placeholder <= a;
      assert s[18..] == a[18..] + " " + b;
      RestoreAroundSpace(a[18..], b);
    } else {
      assert !(Placeholder <= a);
      assert s[1..] == a[1..] + " " + b;
      RestoreAroundSpace(a[1..], b);
    }
  }

  /** `Restore` on each part. */
  function RestoreEach(parts: seq<string>): (r: seq<string>)
    ensures |r| == |parts|
    ensures forall i :: 0 <= i < |r| ==> r[i] == Restore(parts[i])
  {
    seq(|parts|, i requires 0 <= i < |parts| => Restore(parts[i]))
  }

  lemma {:induction false} RestoreJoin(parts: seq<string>)
    ensures Join(RestoreEach(parts), " ") == Restore(Join(parts, " "))
  {
    if |parts| > 1 {
      RestoreJoin(parts[1..]);
      assert RestoreEach(parts)[1..] == RestoreEach(parts[1..]);
      RestoreAroundSpace(parts[0], Join(parts[1..], " "));
    }
  }

  /**
    Strings in which every `#` opens a whole placeholder: the shape a
    `'#'`-free text keeps while some of its spaces are swapped for placeholders.
   */
  predicate Aligned(y: string)
    decreases |y|
  {
    y == [] || (Placeholder <= y && Aligned(y[|Placeholder|..])) || (y[0] != '#' && Aligned(y[1..]))
  }

  lemma {:induction false} AlignedWithoutHash(x: string)
    requires '#' !in x
    ensures Aligned(x) && Restore(x) == x
  {
    PlaceholderChars();
    if x != [] {
      assert x[0] != '#';
      assert !(Placeholder <= x);
      AlignedWithoutHash(x[1..]);
    }
  }

  // ---------------------------------------------------------------------
  // IndexOf

  /** `String.IndexOf(c, from)`: first position at or after `from` holding `c`, or -1. */
  function IndexOf(s: string, c: char, from: nat): (r: int)
    requires from <= |s|
    ensures r == -1 || (from <= r < |s| && s[r] == c)
    ensures forall j :: from <= j < (if r == -1 then |s| else r) ==> s[j] != c
    decreases |s| - from
  {
    if from == |s| then -1
    else if s[from] == c then from
    else IndexOf(s, c, from + 1)
  }
}
