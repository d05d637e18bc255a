/**
  The quoted-segment protector. Within a matched pair of a quote character the
  spaces are swapped for the placeholder, so that a later split on spaces keeps
  a quoted nickname such as 'The Rock' in one token.

  `CheckForQuotes` follows the recursive original step by step: it looks up the
  next pair, rewrites the string, recomputes the closing quote's position in the
  rewritten string and recurses just past it. `Mask` is an independent
  reference: a single left-to-right pass with an open/closed flag. The two are
  proved equal, and the round trip, idempotence and "no pair, no change"
  properties are proved of the reference.
 */
module Quotes {
  import opened Text

  /** The characters the protector is used with: never a space, never part of the placeholder. */
  predicate IsQuoteChar(q: char) {
    q != ' ' && q !in Placeholder
  }

  /** Number of quote characters at or after `from`; each recursive step consumes two. */
  function QuotesFrom(s: string, q: char, from: nat): nat
    requires from <= |s|
  {
    multiset(s[from..])[q]
  }

  /**
    Reference reading of the protector: quotes toggle `open`; a space is
    masked while a pair is open and a closing quote is still ahead, so a quote
    with no later partner (in particular one in the last position) opens nothing.
   */
  function Mask(t: string, q: char, open: bool): string {
    if t == [] then []
    else if t[0] == q then [q] + Mask(t[1..], q, !open)
    else if t[0] == ' ' && open && q in t[1..] then Placeholder + Mask(t[1..], q, open)
    else [t[0]] + Mask(t[1..], q, open)
  }

  /**
    `CheckForQuotes(fullname, unsplittable, rootIndexOf)`. The part before
    `from` is never touched and the rest is rewritten exactly as `Mask` reads it.
   */
  function CheckForQuotes(s: string, q: char, from: nat): (r: string)
    requires IsQuoteChar(q) && from <= |s|
    ensures r == s[..from] + Mask(s[from..], q, false)
    decreases QuotesFrom(s, q, from)
  {
    if from < |s| then
      var i := IndexOf(s, q, from);
      if i != -1 && i != |s| - 1 then
        var j := IndexOf(s, q, i + 1);
        if j != -1 then
          // The original appends the pieces before and after the pair only
          // when they are non-empty; appending an empty slice is the same.
          var s' := s[..i] + Protect(s[i..j + 1]) + s[j + 1..];
          var k := IndexOf(s', q, i + 1);
          PairStep(s, q, from, i, j, s', k);
          CheckForQuotes(s', q, k + 1)
        else
          TailUnchanged(s, q, from, i);
          s
      else
        TailUnchanged(s, q, from, i);
        s
    else
      s
  }

  /** The two passes the parser makes: single quotes, then double quotes. */
  function ProtectQuotes(s: string): string {
    PlaceholderChars();
    CheckForQuotes(CheckForQuotes(s, '\'', 0), '"', 0)
  }

  // ---------------------------------------------------------------------
  // The rewriting step of `CheckForQuotes`

  /** With at most one quote left at or after `from`, there is nothing to protect. */
  lemma TailUnchanged(s: string, q: char, from: nat, i: int)
    requires from <= |s|
    requires i == -1 ==> forall x :: from <= x < |s| ==> s[x] != q
    requires i != -1 ==> from <= i < |s| && s[i] == q
    requires i != -1 ==> forall x :: from <= x < |s| && x != i ==> s[x] != q
    ensures s[..from] + Mask(s[from..], q, false) == s
  {
    var t := s[from..];
    if i == -1 {
      MaskNoQuote(t, q, false);
    } else {
      MaskUnpaired(t, q, i - from);
    }
    assert s[..from] + t == s;
  }

  /** Protecting a pair keeps its two quotes and masks the spaces between them. */
  lemma ProtectPair(q: char, mid: string)
    requires IsQuoteChar(q) && q !in mid
    ensures Protect([q] + mid + [q]) == [q] + Protect(mid) + [q]
    ensures q !in Protect(mid)
  {
    ProtectAppend([q] + mid, [q]);
    ProtectAppend([q], mid);
    ProtectChar(q);
    ProtectAvoids(mid, q);
  }

  /** In the rewritten string the closing quote is the first quote after the opening one. */
  lemma ClosingQuoteIndex(pre: string, p: string, rest: string, q: char)
    requires q !in p
    ensures IndexOf(pre + [q] + p + [q] + rest, q, |pre| + 1) == |pre| + 1 + |p|
  {
    var s' := pre + [q] + p + [q] + rest;
    var k := |pre| + 1 + |p|;
    assert s'[k] == q;
    assert forall x :: |pre| + 1 <= x < k ==> s'[x] == p[x - |pre| - 1];
  }

  /** Where everything lands after one pair at `i`, `j` has been protected. */
  lemma PairStep(s: string, q: char, from: nat, i: nat, j: nat, s': string, k: int)
    requires IsQuoteChar(q)
    requires from <= i < j < |s| && s[i] == q && s[j] == q
    requires forall x :: from <= x < i ==> s[x] != q
    requires forall x :: i < x < j ==> s[x] != q
    requires s' == s[..i] + Protect(s[i..j + 1]) + s[j + 1..]
    requires i + 1 <= |s'| && k == IndexOf(s', q, i + 1)
    ensures 0 <= k + 1 <= |s'|
    ensures QuotesFrom(s', q, k + 1) < QuotesFrom(s, q, from)
    ensures s'[..k + 1] + Mask(s'[k + 1..], q, false) == s[..from] + Mask(s[from..], q, false)
  {
    PairLayout(s, q, i, j, s', k);
    PairMask(s, q, from, i, j);
    assert QuotesFrom(s', q, k + 1) == QuotesFrom(s, q, j + 1);
    PairStitch(s, q, from, i, j, s'[..k + 1], s'[k + 1..]);
  }

  /** Head and rest of the rewritten string, masked, give the reference reading. */
  lemma PairStitch(s: string, q: char, from: nat, i: nat, j: nat, head: string, rest: string)
    requires from <= i < j < |s|
    requires head == s[..i] + [q] + Protect(s[i + 1..j]) + [q]
    requires rest == s[j + 1..]
    requires Mask(s[from..], q, false) == s[from..i] + [q] + Protect(s[i + 1..j]) + [q] + Mask(s[j + 1..], q, false)
    ensures head + Mask(rest, q, false) == s[..from] + Mask(s[from..], q, false)
  {
    var a, b := s[..from], s[from..i];
    assert s[..i] == a + b;
    Regroup(a, b, [q], Protect(s[i + 1..j]), Mask(rest, q, false));
  }

  /** The rewritten string splits just after the closing quote into the protected head and the untouched rest. */
  lemma PairLayout(s: string, q: char, i: nat, j: nat, s': string, k: int)
    requires IsQuoteChar(q)
    requires i < j < |s| && s[i] == q && s[j] == q
    requires forall x :: i < x < j ==> s[x] != q
    requires s' == s[..i] + Protect(s[i..j + 1]) + s[j + 1..]
    requires i + 1 <= |s'| && k == IndexOf(s', q, i + 1)
    ensures 0 <= k + 1 <= |s'|
    ensures s'[..k + 1] == s[..i] + [q] + Protect(s[i + 1..j]) + [q]
    ensures s'[k + 1..] == s[j + 1..]
  {
    var rest := s[j + 1..];
    var p := Protect(s[i + 1..j]);
    PairRewrite(s, q, i, j);
    var head := s[..i] + [q] + p + [q];
    assert s' == head + rest;
    ClosingQuoteIndex(s[..i], p, rest, q);
    assert k + 1 == |head|;
  }

  lemma Regroup(a: string, b: string, c: string, d: string, e: string)
    ensures (a + b) + c + d + c + e == a + (b + c + d + c + e)
  {
  }

  /** The rewritten string, piece by piece. */
  lemma PairRewrite(s: string, q: char, i: nat, j: nat)
    requires IsQuoteChar(q)
    requires i < j < |s| && s[i] == q && s[j] == q
    requires forall x :: i < x < j ==> s[x] != q
    ensures q !in Protect(s[i + 1..j])
    ensures s[..i] + Protect(s[i..j + 1]) + s[j + 1..] == s[..i] + [q] + Protect(s[i + 1..j]) + [q] + s[j + 1..]
  {
    var mid := s[i + 1..j];
    assert s[i..j + 1] == [q] + mid + [q];
    assert q !in mid;
    ProtectPair(q, mid);
  }

  /** The reference reading of the same span: copied up to the pair, masked inside it. */
  lemma PairMask(s: string, q: char, from: nat, i: nat, j: nat)
    requires IsQuoteChar(q)
    requires from <= i < j < |s| && s[i] == q && s[j] == q
    requires forall x :: from <= x < i ==> s[x] != q
    requires forall x :: i < x < j ==> s[x] != q
    ensures QuotesFrom(s, q, j + 1) < QuotesFrom(s, q, from)
    ensures Mask(s[from..], q, false) == s[from..i] + [q] + Protect(s[i + 1..j]) + [q] + Mask(s[j + 1..], q, false)
  {
    var mid := s[i + 1..j];
    var rest := s[j + 1..];
    var pre := s[from..i];
    assert s[from..] == pre + ([q] + mid + [q] + rest);
    QuotePairCount(pre, mid, rest, q);
    PairMaskSplit(pre, mid, rest, q);
  }

  lemma PairMaskSplit(pre: string, mid: string, rest: string, q: char)
    requires IsQuoteChar(q) && q !in pre && q !in mid
    ensures Mask(pre + ([q] + mid + [q] + rest), q, false) == pre + [q] + Protect(mid) + [q] + Mask(rest, q, false)
  {
    var tail := mid + [q] + rest;
    assert [q] + mid + [q] + rest == [q] + tail;
    MaskClosedRun(pre, [q] + tail, q);
    assert ([q] + tail)[1..] == tail;
    MaskOpenRun(mid, rest, q);
  }

  lemma QuotePairCount(u: string, mid: string, rest: string, q: char)
    ensures multiset(u + ([q] + mid + [q] + rest))[q] >= 2 + multiset(rest)[q]
  {
    assert multiset(u + ([q] + mid + [q] + rest)) == multiset(u) + multiset([q]) + multiset(mid) + multiset([q]) + multiset(rest);
  }

  // ---------------------------------------------------------------------
  // Properties of the reference reading

  lemma {:induction false} MaskNoQuote(t: string, q: char, open: bool)
    requires q !in t
    ensures Mask(t, q, open) == t
  {
    if t != [] {
      MaskNoQuote(t[1..], q, open);
    }
  }

  /** Outside a pair, text before the next quote is copied unchanged. */
  lemma {:induction false} MaskClosedRun(u: string, w: string, q: char)
    requires q !in u
    ensures Mask(u + w, q, false) == u + Mask(w, q, false)
  {
    if u != [] {
      assert (u + w)[0] == u[0];
      assert (u + w)[1..] == u[1..] + w;
      MaskClosedRun(u[1..], w, q);
    } else {
      assert u + w == w;
    }
  }

  /** Inside a pair whose closing quote is ahead, every space is masked up to that quote. */
  lemma {:induction false} MaskOpenRun(m: string, w: string, q: char)
    requires IsQuoteChar(q) && q !in m
    ensures Mask(m + [q] + w, q, true) == Protect(m) + [q] + Mask(w, q, false)
  {
    var t := m + [q] + w;
    if m == [] {
      assert t == [q] + w;
      assert Protect(m) == [];
    } else {
      assert t[0] == m[0];
      assert t[1..] == m[1..] + [q] + w;
      assert q in t[1..];
      MaskOpenRun(m[1..], w, q);
      ProtectUnfold(m);
    }
  }

  /** A quote with no partner after it opens nothing. */
  lemma MaskUnpaired(t: string, q: char, i: nat)
    requires i < |t| && t[i] == q
    requires forall x :: 0 <= x < i ==> t[x] != q
    requires forall x :: i < x < |t| ==> t[x] != q
    ensures Mask(t, q, false) == t
  {
    assert t == t[..i] + ([q] + t[i + 1..]);
    MaskClosedRun(t[..i], [q] + t[i + 1..], q);
    assert ([q] + t[i + 1..])[1..] == t[i + 1..];
    MaskNoQuote(t[i + 1..], q, true);
  }

  /** Text holding neither a quote nor a space passes through unchanged. */
  lemma {:induction false} MaskPlain(u: string, w: string, q: char, open: bool)
    requires q !in u && ' ' !in u
    ensures Mask(u + w, q, open) == u + Mask(w, q, open)
  {
    if u != [] {
      assert (u + w)[0] == u[0];
      assert (u + w)[1..] == u[1..] + w;
      MaskPlain(u[1..], w, q, open);
    } else {
      assert u + w == w;
    }
  }

  /** Only spaces are ever replaced. */
  lemma {:induction false} MaskWithoutSpaces(t: string, q: char, open: bool)
    requires ' ' !in t
    ensures Mask(t, q, open) == t
  {
    if t != [] {
      MaskWithoutSpaces(t[1..], q, !open);
      MaskWithoutSpaces(t[1..], q, open);
    }
  }

  /** Masking neither adds nor removes quote characters. */
  lemma {:induction false} MaskKeepsQuotes(t: string, q: char, open: bool)
    requires IsQuoteChar(q)
    ensures (q in Mask(t, q, open)) == (q in t)
  {
    if t != [] {
      MaskKeepsQuotes(t[1..], q, !open);
      MaskKeepsQuotes(t[1..], q, open);
    }
  }

  /**
    Masking keeps a text aligned (every `#` opens a whole placeholder) and
    restoring placeholders undoes it.
   */
  lemma {:induction false} MaskRestores(y: string, q: char, open: bool)
    requires IsQuoteChar(q) && Aligned(y)
    ensures Aligned(Mask(y, q, open))
    ensures Restore(Mask(y, q, open)) == Restore(y)
    decreases |y|
  {
    PlaceholderChars();
    if y == [] {
    } else if Placeholder <= y {
      var w := y[18..];
      assert y == Placeholder + w;
      MaskPlain(Placeholder, w, q, open);
      MaskRestores(w, q, open);
      var m := Mask(w, q, open);
      assert (Placeholder + m)[18..] == m;
      assert Placeholder <= Placeholder + m;
    } else {
      var w := y[1..];
      MaskRestores(w, q, !open);
      MaskRestores(w, q, open);
      var c := y[0];
      assert c != '#';
      var m := Mask(y, q, open);
      if c == q {
        var m' := Mask(w, q, !open);
        assert m == [q] + m';
        assert m[1..] == m';
        assert !(Placeholder <= m);
      } else if c == ' ' && open && q in w {
        var m' := Mask(w, q, open);
        assert m == Placeholder + m';
        assert m[18..] == m';
        assert Placeholder <= m;
      } else {
        var m' := Mask(w, q, open);
        assert m == [c] + m';
        assert m[1..] == m';
        assert !(Placeholder <= m);
      }
    }
  }

  /** A second pass over masked text changes nothing. */
  lemma {:induction false} MaskIdempotent(t: string, q: char, open: bool)
    requires IsQuoteChar(q)
    ensures Mask(Mask(t, q, open), q, open) == Mask(t, q, open)
  {
    PlaceholderChars();
    if t != [] {
      var w := t[1..];
      if t[0] == q {
        var m := Mask(w, q, !open);
        MaskIdempotent(w, q, !open);
        assert ([q] + m)[1..] == m;
      } else if t[0] == ' ' && open && q in w {
        var m := Mask(w, q, open);
        MaskIdempotent(w, q, open);
        MaskPlain(Placeholder, m, q, open);
      } else {
        var m := Mask(w, q, open);
        MaskIdempotent(w, q, open);
        MaskKeepsQuotes(w, q, open);
        assert ([t[0]] + m)[1..] == m;
      }
    }
  }

  // ---------------------------------------------------------------------
  // The same properties, stated of CheckForQuotes

  /** Restoring placeholders gives back any input that holds no `#`. */
  lemma CheckForQuotesRoundTrip(s: string, q: char)
    requires IsQuoteChar(q) && '#' !in s
    ensures Restore(CheckForQuotes(s, q, 0)) == s
  {
    AlignedWithoutHash(s);
    MaskRestores(s, q, false);
    assert s[..0] + Mask(s[0..], q, false) == Mask(s, q, false);
  }

  /** Protecting already protected text changes nothing. */
  lemma CheckForQuotesIdempotent(s: string, q: char)
    requires IsQuoteChar(q)
    ensures CheckForQuotes(CheckForQuotes(s, q, 0), q, 0) == CheckForQuotes(s, q, 0)
  {
    var once := CheckForQuotes(s, q, 0);
    assert s[..0] + Mask(s[0..], q, false) == Mask(s, q, false);
    assert once[..0] + Mask(once[0..], q, false) == Mask(once, q, false);
    MaskIdempotent(s, q, false);
  }

  /** A single quote character opens nothing. */
  lemma {:induction false} MaskOneQuote(t: string, q: char)
    requires multiset(t)[q] <= 1
    ensures Mask(t, q, false) == t
  {
    if t != [] {
      assert t == [t[0]] + t[1..];
      assert multiset(t) == multiset([t[0]]) + multiset(t[1..]);
      if t[0] == q {
        assert q !in t[1..];
        MaskNoQuote(t[1..], q, true);
      } else {
        MaskOneQuote(t[1..], q);
      }
    }
  }

  /** With fewer than two quote characters there is no pair, so nothing changes. */
  lemma CheckForQuotesNeedsPair(s: string, q: char)
    requires IsQuoteChar(q) && multiset(s)[q] < 2
    ensures CheckForQuotes(s, q, 0) == s
  {
    assert s[..0] + Mask(s[0..], q, false) == Mask(s, q, false);
    MaskOneQuote(s, q);
  }

  /** Both passes together still restore to the input when it holds no `#`. */
  lemma ProtectQuotesRoundTrip(s: string)
    requires '#' !in s
    ensures Restore(ProtectQuotes(s)) == s
  {
    PlaceholderChars();
    AlignedWithoutHash(s);
    var once := CheckForQuotes(s, '\'', 0);
    assert s[..0] + Mask(s[0..], '\'', false) == Mask(s, '\'', false);
    MaskRestores(s, '\'', false);
    assert once[..0] + Mask(once[0..], '"', false) == Mask(once, '"', false);
    MaskRestores(once, '"', false);
  }
}
