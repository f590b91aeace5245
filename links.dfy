/** The text handling behind the observer mapping: Python's whitespace class, str.strip(),
    the share-link pattern `https?://[^\s,]+` as re.findall scans it, and the file ID
    taken from a link with split('id=') and split('&'). */
module Links {
  import opened Tables

  /** Python's str.isspace(); `\s` in a str pattern and str.strip() use the same set. */
  predicate IsSpace(c: char) {
    || ('\U{9}' <= c <= '\U{D}')
    || ('\U{1C}' <= c <= '\U{20}')
    || c == '\U{85}' || c == '\U{A0}' || c == '\U{1680}'
    || ('\U{2000}' <= c <= '\U{200A}')
    || c == '\U{2028}' || c == '\U{2029}' || c == '\U{202F}' || c == '\U{205F}' || c == '\U{3000}'
  }

  /** The characters `[^\s,]` refuses. */
  predicate IsSeparator(c: char) {
    IsSpace(c) || c == ','
  }

  predicate StartsWith(s: string, p: string) {
    |p| <= |s| && s[..|p|] == p
  }

  predicate OccursAt(s: string, p: string, i: int) {
    0 <= i && i + |p| <= |s| && s[i..i + |p|] == p
  }

  /** Python's `p in s`. */
  predicate Contains(s: string, p: string) {
    exists i :: 0 <= i <= |s| && OccursAt(s, p, i)
  }

  // ---------------------------------------------------------------- str.strip()

  function Leading(s: string): (n: nat)
    ensures n <= |s|
    ensures forall i :: 0 <= i < n ==> IsSpace(s[i])
    ensures n < |s| ==> !IsSpace(s[n])
  {
    if |s| == 0 || !IsSpace(s[0]) then 0 else 1 + Leading(s[1..])
  }

  function Trailing(s: string): (n: nat)
    ensures n <= |s|
    ensures forall i :: |s| - n <= i < |s| ==> IsSpace(s[i])
    ensures n < |s| ==> !IsSpace(s[|s| - 1 - n])
  {
    if |s| == 0 || !IsSpace(s[|s| - 1]) then 0 else 1 + Trailing(s[..|s| - 1])
  }

  /** str.strip(): the slice of s left when every leading and trailing whitespace
      character is removed; what remains neither starts nor ends with whitespace. */
  function Strip(s: string): (r: string)
    ensures Leading(s) + |r| <= |s|
    ensures r == s[Leading(s)..Leading(s) + |r|]
    ensures forall i :: Leading(s) + |r| <= i < |s| ==> IsSpace(s[i])
    ensures r == [] || (!IsSpace(r[0]) && !IsSpace(r[|r| - 1]))
  {
    var t := s[Leading(s)..];
    t[..|t| - Trailing(t)]
  }

  /** Padding put around a name is exactly what strip() takes away. */
  lemma StripPadded(pre: string, x: string, post: string)
    requires forall i :: 0 <= i < |pre| ==> IsSpace(pre[i])
    requires forall i :: 0 <= i < |post| ==> IsSpace(post[i])
    requires x == [] || (!IsSpace(x[0]) && !IsSpace(x[|x| - 1]))
    ensures Strip(pre + x + post) == x
  {
    var s := pre + x + post;
    if x == [] {
      forall i | 0 <= i < |s| ensures IsSpace(s[i]) {
        if i < |pre| { assert s[i] == pre[i]; } else { assert s[i] == post[i - |pre|]; }
      }
      LeadingIs(s, |s|);
    } else {
      forall i | 0 <= i < |pre| ensures IsSpace(s[i]) {
        assert s[i] == pre[i];
      }
      assert s[|pre|] == x[0];
      LeadingIs(s, |pre|);
      var t := s[|pre|..];
      assert t == x + post;
      forall i | |t| - |post| <= i < |t| ensures IsSpace(t[i]) {
        assert t[i] == post[i - |x|];
      }
      assert t[|t| - 1 - |post|] == x[|x| - 1];
      TrailingIs(t, |post|);
      assert t[..|t| - |post|] == x;
    }
  }

  /** Leading(s) is the one count of leading whitespace followed by a non-space. */
  lemma LeadingIs(s: string, n: nat)
    requires n <= |s|
    requires forall i :: 0 <= i < n ==> IsSpace(s[i])
    requires n < |s| ==> !IsSpace(s[n])
    ensures Leading(s) == n
  {
  }

  /** Trailing(s) is the one count of trailing whitespace preceded by a non-space. */
  lemma TrailingIs(s: string, n: nat)
    requires n <= |s|
    requires forall i :: |s| - n <= i < |s| ==> IsSpace(s[i])
    requires n < |s| ==> !IsSpace(s[|s| - 1 - n])
    ensures Trailing(s) == n
  {
  }

  // ---------------------------------------------------------------- re.findall

  /** Length of the `https?://` that s starts with, or 0. The two alternatives cannot
      both apply: the fifth character is `s` in one and `:` in the other. */
  function SchemeLength(s: string): (k: nat)
    ensures k <= |s|
    ensures k == 8 ==> s[..8] == "https://"
    ensures k == 7 ==> s[..7] == "http://"
    ensures k == 0 || k == 7 || k == 8
  {
    if StartsWith(s, "https://") then 8 else if StartsWith(s, "http://") then 7 else 0
  }

  /** Length of the longest prefix of s made of `[^\s,]` characters. */
  function RunLength(s: string): (n: nat)
    ensures n <= |s|
    ensures forall i :: 0 <= i < n ==> !IsSeparator(s[i])
    ensures n < |s| ==> IsSeparator(s[n])
  {
    if |s| == 0 || IsSeparator(s[0]) then 0 else 1 + RunLength(s[1..])
  }

  /** A string the pattern `https?://[^\s,]+` matches in full. */
  predicate IsLink(l: string) {
    && ((StartsWith(l, "https://") && |l| > 8) || (StartsWith(l, "http://") && |l| > 7))
    && forall i :: 0 <= i < |l| ==> !IsSeparator(l[i])
  }

  lemma SchemeIsNotSeparated(s: string, k: nat)
    requires k == SchemeLength(s) && k > 0
    ensures forall i :: 0 <= i < k ==> !IsSeparator(s[i])
  {
    if k == 8 {
      assert forall i :: 0 <= i < 8 ==> s[i] == "https://"[i];
    } else {
      assert forall i :: 0 <= i < 7 ==> s[i] == "http://"[i];
    }
  }

  /** A match of the pattern starts at the beginning of s: a scheme followed by at least
      one `[^\s,]` character. */
  predicate MatchStarts(s: string) {
    var k := SchemeLength(s);
    0 < k < |s| && !IsSeparator(s[k])
  }

  /** re.findall(r'https?://[^\s,]+', s): scanning left to right, a match is tried at
      each position; a match takes the scheme and then as many `[^\s,]` characters as
      there are (at least one), and scanning resumes right after it. */
  function FindLinks(s: string): seq<string>
    decreases |s|
  {
    if |s| == 0 then []
    else
      var k := SchemeLength(s);
      if MatchStarts(s) then
        var e := k + RunLength(s[k..]);
        [s[..e]] + FindLinks(s[e..])
      else
        FindLinks(s[1..])
  }

  /** The match the scan takes at the front of s is a whole match of the pattern. */
  lemma MatchIsLink(s: string, k: nat, e: nat)
    requires MatchStarts(s) && k == SchemeLength(s)
    requires e == k + RunLength(s[k..])
    ensures IsLink(s[..e])
  {
    SchemeIsNotSeparated(s, k);
    assert forall i :: k <= i < e ==> s[i] == s[k..][i - k];
    assert s[..e][..k] == s[..k];
  }

  /** Everything the scan returns is a whole match of the pattern. */
  lemma {:induction false} FindLinksAreLinks(s: string)
    ensures forall i :: 0 <= i < |FindLinks(s)| ==> IsLink(FindLinks(s)[i])
    decreases |s|
  {
    if |s| > 0 {
      if MatchStarts(s) {
        var k := SchemeLength(s);
        var e := k + RunLength(s[k..]);
        MatchIsLink(s, k, e);
        FindLinksAreLinks(s[e..]);
        FindLinksMatch(s, k, e);
      } else {
        FindLinksAreLinks(s[1..]);
        FindLinksSkip(s);
      }
    }
  }

  /** Several links in one answer cell, written as a form joins them. */
  function JoinLinks(links: seq<string>): string {
    if |links| == 0 then ""
    else if |links| == 1 then links[0]
    else links[0] + ", " + JoinLinks(links[1..])
  }

  lemma {:induction false} SchemeOfLink(l: string, rest: string)
    requires IsLink(l)
    ensures SchemeLength(l + rest) == SchemeLength(l) > 0
    ensures SchemeLength(l) < |l|
  {
    var s := l + rest;
    assert s[..|l|] == l;
    if StartsWith(l, "https://") {
      assert s[..8] == l[..8];
      assert l[4] == 's';
      assert !StartsWith(l, "http://");
    } else {
      assert l[..7] == "http://";
      assert s[..7] == l[..7];
      assert l[4] == ':';
      assert s[4] == ':';
      assert !StartsWith(s, "https://");
    }
  }

  lemma {:induction false} RunOfLink(l: string, rest: string)
    requires forall i :: 0 <= i < |l| ==> !IsSeparator(l[i])
    requires rest == [] || IsSeparator(rest[0])
    ensures RunLength(l + rest) == |l|
    decreases |l|
  {
    if |l| > 0 {
      assert (l + rest)[0] == l[0];
      assert (l + rest)[1..] == l[1..] + rest;
      RunOfLink(l[1..], rest);
    } else {
      assert l + rest == rest;
    }
  }

  /** A link followed by a separator is found whole, and the scan goes on after it. */
  lemma {:induction false} FindLinksAfterLink(l: string, rest: string)
    requires IsLink(l)
    requires rest == [] || IsSeparator(rest[0])
    ensures FindLinks(l + rest) == [l] + FindLinks(rest)
  {
    var s := l + rest;
    SchemeOfLink(l, rest);
    var k := SchemeLength(s);
    assert s[k] == l[k];
    assert s[k..] == l[k..] + rest;
    RunOfLink(l[k..], rest);
    assert s[..|l|] == l;
    assert s[|l|..] == rest;
  }

  lemma NoSchemeAt(s: string)
    requires |s| > 0 && s[0] != 'h'
    ensures SchemeLength(s) == 0
  {
    if |s| >= 7 { assert s[..7][0] == s[0]; }
    if |s| >= 8 { assert s[..8][0] == s[0]; }
  }

  /** A separator never starts a link: the scan steps over it. */
  lemma SkipSeparator(c: char, rest: string)
    requires IsSeparator(c)
    ensures FindLinks([c] + rest) == FindLinks(rest)
  {
    var s := [c] + rest;
    assert s[0] == c;
    NoSchemeAt(s);
    assert s[1..] == rest;
  }

  /** A scheme cannot reach past a separator: before one, the scan sees the same scheme
      whatever follows. */
  lemma SchemeWithin(pre: string, x: string)
    requires |pre| > 0 && IsSeparator(pre[|pre| - 1])
    ensures SchemeLength(pre + x) == SchemeLength(pre) < |pre|
  {
    var s := pre + x;
    var n := |pre|;
    var k := SchemeLength(s);
    if k > 0 {
      SchemeIsNotSeparated(s, k);
      assert s[n - 1] == pre[n - 1];
      assert k < n;
    }
    if n >= 8 { assert s[..8] == pre[..8]; }
    if n >= 7 { assert s[..7] == pre[..7]; }
  }

  /** A run of non-separators stops at the separator that ends `a`. */
  lemma {:induction false} RunWithin(a: string, x: string)
    requires |a| > 0 && IsSeparator(a[|a| - 1])
    ensures RunLength(a + x) == RunLength(a) < |a|
    decreases |a|
  {
    assert (a + x)[0] == a[0];
    if !IsSeparator(a[0]) {
      assert |a| > 1;
      assert (a + x)[1..] == a[1..] + x;
      RunWithin(a[1..], x);
    }
  }

  /** The scan's step at a position where a match starts. */
  lemma FindLinksMatch(s: string, k: nat, e: nat)
    requires MatchStarts(s) && k == SchemeLength(s)
    requires e == k + RunLength(s[k..])
    ensures FindLinks(s) == [s[..e]] + FindLinks(s[e..])
  {
  }

  /** The scan's step at a position where no match starts. */
  lemma FindLinksSkip(s: string)
    requires |s| > 0 && !MatchStarts(s)
    ensures FindLinks(s) == FindLinks(s[1..])
  {
  }

  /** Before a separator, `pre + x` has the match that `pre` has at its start. */
  lemma MatchWithin(pre: string, x: string, k: nat, e: nat)
    requires |pre| > 0 && IsSeparator(pre[|pre| - 1])
    requires k == SchemeLength(pre) && 0 < k && !IsSeparator(pre[k])
    requires e == k + RunLength(pre[k..])
    ensures e < |pre|
    ensures SchemeLength(pre + x) == k && (pre + x)[k] == pre[k]
    ensures e == k + RunLength((pre + x)[k..])
    ensures (pre + x)[..e] == pre[..e] && (pre + x)[e..] == pre[e..] + x
  {
    SchemeWithin(pre, x);
    assert (pre + x)[k] == pre[k];
    SliceOfAppend(pre, x, k);
    RunWithin(pre[k..], x);
    SliceOfAppend(pre, x, e);
  }

  /** Before a separator, a match at the start is emitted by both scans, which then go
      on from the same place. */
  lemma MatchScan(pre: string, x: string, k: nat, e: nat)
    requires |pre| > 0 && IsSeparator(pre[|pre| - 1])
    requires MatchStarts(pre) && k == SchemeLength(pre)
    requires e == k + RunLength(pre[k..])
    ensures e < |pre|
    ensures FindLinks(pre) == [pre[..e]] + FindLinks(pre[e..])
    ensures FindLinks(pre + x) == [pre[..e]] + FindLinks(pre[e..] + x)
  {
    MatchWithin(pre, x, k, e);
    MatchStartsWithin(pre, x);
    FindLinksMatch(pre, k, e);
    FindLinksMatch(pre + x, k, e);
  }

  /** Before a separator, a match starts at the front of `pre + x` just when one starts
      at the front of `pre`. */
  lemma MatchStartsWithin(pre: string, x: string)
    requires |pre| > 0 && IsSeparator(pre[|pre| - 1])
    ensures MatchStarts(pre + x) == MatchStarts(pre)
  {
    SchemeWithin(pre, x);
    assert (pre + x)[SchemeLength(pre)] == pre[SchemeLength(pre)];
  }

  /** Before a separator, a position where no match starts is skipped by the scan of
      `pre + x` as by the scan of `pre`. */
  lemma SkipScan(pre: string, x: string)
    requires |pre| > 0 && IsSeparator(pre[|pre| - 1])
    requires !MatchStarts(pre)
    ensures FindLinks(pre + x) == FindLinks(pre[1..] + x)
  {
    MatchStartsWithin(pre, x);
    FindLinksSkip(pre + x);
    assert (pre + x)[1..] == pre[1..] + x;
  }

  /** Text that ends in a separator is scanned on its own: no match straddles it. */
  lemma {:induction false} FindLinksPrefix(pre: string, x: string)
    requires pre == [] || IsSeparator(pre[|pre| - 1])
    ensures FindLinks(pre + x) == FindLinks(pre) + FindLinks(x)
    decreases |pre|
  {
    if |pre| == 0 {
      assert pre + x == x;
    } else {
      if MatchStarts(pre) {
        var k := SchemeLength(pre);
        var e := k + RunLength(pre[k..]);
        MatchScan(pre, x, k, e);
        assert pre[e..][|pre[e..]| - 1] == pre[|pre| - 1];
        FindLinksPrefix(pre[e..], x);
        ConcatAssociates([pre[..e]], FindLinks(pre[e..]), FindLinks(x));
      } else {
        SkipScan(pre, x);
        FindLinksSkip(pre);
        assert pre[1..] == [] || pre[1..][|pre| - 2] == pre[|pre| - 1];
        FindLinksPrefix(pre[1..], x);
      }
    }
  }

  /** A link set off by separators (or the ends of the text) is found exactly where it
      stands, between the links of the text before it and those of the text after it. */
  lemma FindLinksSplit(pre: string, l: string, post: string)
    requires pre == [] || IsSeparator(pre[|pre| - 1])
    requires IsLink(l)
    requires post == [] || IsSeparator(post[0])
    ensures FindLinks(pre + l + post) == FindLinks(pre) + [l] + FindLinks(post)
  {
    ConcatAssociates(pre, l, post);
    FindLinksPrefix(pre, l + post);
    FindLinksAfterLink(l, post);
    ConcatAssociates(FindLinks(pre), [l], FindLinks(post));
  }

  /** The ", " a form puts between links is skipped. */
  lemma SkipComma(tail: string)
    ensures FindLinks(", " + tail) == FindLinks(tail)
  {
    assert [','] + (" " + tail) == ", " + tail;
    SkipSeparator(',', " " + tail);
    assert [' '] + tail == " " + tail;
    SkipSeparator(' ', tail);
  }

  lemma JoinStep(l: string, tail: string)
    requires IsLink(l)
    ensures FindLinks(l + ", " + tail) == [l] + FindLinks(tail)
  {
    assert l + ", " + tail == l + (", " + tail);
    assert (", " + tail)[0] == ',';
    FindLinksAfterLink(l, ", " + tail);
    SkipComma(tail);
  }

  /** Every link written into an answer cell is found again, in order, and nothing else. */
  lemma {:induction false} FindJoinedLinks(links: seq<string>)
    requires forall i :: 0 <= i < |links| ==> IsLink(links[i])
    ensures FindLinks(JoinLinks(links)) == links
  {
    if |links| == 1 {
      FindLinksAfterLink(links[0], "");
      assert links[0] + "" == links[0];
    } else if |links| > 1 {
      JoinStep(links[0], JoinLinks(links[1..]));
      FindJoinedLinks(links[1..]);
    }
  }

  // ---------------------------------------------------------------- file IDs

  function IndexFrom(s: string, p: string, from: nat): (r: int)
    requires from <= |s|
    ensures r == -1 ==> forall i :: from <= i ==> !OccursAt(s, p, i)
    ensures r != -1 ==> from <= r && OccursAt(s, p, r)
    ensures r != -1 ==> forall i :: from <= i < r ==> !OccursAt(s, p, i)
    decreases |s| - from
  {
    if from + |p| > |s| then -1
    else if s[from..from + |p|] == p then from
    else IndexFrom(s, p, from + 1)
  }

  /** str.find: the first position where p occurs in s, or -1. */
  function IndexOf(s: string, p: string): (r: int)
    ensures r == -1 <==> !Contains(s, p)
    ensures r != -1 ==> OccursAt(s, p, r)
    ensures forall i :: 0 <= i < r ==> !OccursAt(s, p, i)
  {
    IndexFrom(s, p, 0)
  }

  /** s.split(p)[0]: the text before the first p, or all of s. */
  function Before(s: string, p: string): string {
    var i := IndexOf(s, p);
    if i < 0 then s else s[..i]
  }

  /** s.split(p)[1] without its own later pieces: the text after the first p. */
  function After(s: string, p: string): string
    requires Contains(s, p)
  {
    s[IndexOf(s, p) + |p|..]
  }

  lemma BeforeLacks(s: string, p: string)
    requires |p| > 0
    ensures !Contains(Before(s, p), p)
  {
    var b := Before(s, p);
    var k := IndexOf(s, p);
    if k >= 0 {
      forall i | OccursAt(b, p, i) ensures false {
        assert b[i..i + |p|] == s[i..i + |p|];
        assert OccursAt(s, p, i);
      }
    }
  }

  /** A prefix of text that lacks p lacks p too. */
  lemma PrefixLacks(s: string, b: string, p: string)
    requires !Contains(s, p)
    requires |b| <= |s| && b == s[..|b|]
    ensures !Contains(b, p)
  {
    forall i | OccursAt(b, p, i) ensures OccursAt(s, p, i) {
      assert b[i..i + |p|] == s[i..i + |p|];
    }
  }

  /** What split keeps is a prefix, cut where the separator occurs if it does. */
  lemma BeforeIsPrefix(s: string, p: string)
    ensures var b := Before(s, p);
      |b| <= |s| && b == s[..|b|] && (|b| == |s| || OccursAt(s, p, |b|))
  {
  }

  /** Cutting the text after `start` at a first `id=` and then at a first `&` leaves a
      piece of link that ends at the end of the link, at an `&` or at an `id=`. */
  lemma CutEnds(link: string, start: nat, piece: string, id: string)
    requires start <= |link|
    requires |piece| <= |link| - start && piece == link[start..][..|piece|]
    requires |piece| == |link| - start || OccursAt(link[start..], "id=", |piece|)
    requires |id| <= |piece| && id == piece[..|id|]
    requires |id| == |piece| || OccursAt(piece, "&", |id|)
    ensures start + |id| <= |link| && link[start..start + |id|] == id
    ensures start + |id| == |link| || link[start + |id|] == '&' || OccursAt(link, "id=", start + |id|)
  {
    var a := link[start..];
    var n := |id|;
    assert id == a[..n];
    if n < |piece| {
      assert piece[n..n + 1] == "&";
      assert link[start + n] == a[n] == piece[n];
    } else if n < |a| {
      assert a[n..n + 3] == link[start + n..start + n + 3];
    }
  }

  /** The ID runs up to the end of the link, an `&`, or a second `id=`. */
  lemma IdEnds(link: string)
    requires Contains(link, "id=")
    ensures var start := IndexOf(link, "id=") + 3;
      var id := Before(Before(After(link, "id="), "id="), "&");
      start + |id| <= |link| && link[start..start + |id|] == id
      && (start + |id| == |link| || link[start + |id|] == '&' || OccursAt(link, "id=", start + |id|))
  {
    var start := IndexOf(link, "id=") + 3;
    var piece := Before(After(link, "id="), "id=");
    BeforeIsPrefix(After(link, "id="), "id=");
    BeforeIsPrefix(piece, "&");
    CutEnds(link, start, piece, Before(piece, "&"));
  }

  /** A link's file ID: `link.split('id=')[1].split('&')[0]`, only for a link that
      contains `id=`. The ID starts right after the first `id=` and stops before the
      first `&` or the next `id=`, whichever comes first. */
  function ExtractId(link: string): (r: Option<string>)
    ensures r.Some? <==> Contains(link, "id=")
    ensures r.Some? ==> !Contains(r.value, "&") && !Contains(r.value, "id=")
    ensures r.Some? ==> OccursAt(link, r.value, IndexOf(link, "id=") + 3)
    ensures r.Some? ==> var e := IndexOf(link, "id=") + 3 + |r.value|;
      e == |link| || link[e] == '&' || OccursAt(link, "id=", e)
  {
    if !Contains(link, "id=") then None
    else
      var piece := Before(After(link, "id="), "id=");
      var id := Before(piece, "&");
      IdEnds(link);
      BeforeLacks(piece, "&");
      BeforeLacks(After(link, "id="), "id=");
      BeforeIsPrefix(piece, "&");
      PrefixLacks(piece, id, "id=");
      Some(id)
  }

  lemma IndexOfIs(s: string, p: string, k: int)
    requires OccursAt(s, p, k)
    requires forall i :: 0 <= i < k ==> !OccursAt(s, p, i)
    ensures IndexOf(s, p) == k
  {
  }

  lemma {:induction false} FirstIdAfterPrefix(pre: string, rest: string)
    requires !Contains(pre, "id=")
    ensures IndexOf(pre + "id=" + rest, "id=") == |pre|
  {
    var link := pre + "id=" + rest;
    var n := |pre|;
    assert link[n..n + 3] == "id=";
    assert link[n] == 'i';
    forall i | 0 <= i < n ensures !OccursAt(link, "id=", i) {
      if i + 3 <= n {
        assert link[i..i + 3] == pre[i..i + 3];
        assert !OccursAt(pre, "id=", i);
      }
    }
    IndexOfIs(link, "id=", n);
  }

  /** Cutting `id + post` at its first `id=` keeps all of id, then the `&` if any. */
  lemma {:induction false} PieceKeepsId(id: string, post: string)
    requires !Contains(id, "id=")
    requires post == [] || post[0] == '&'
    ensures var piece := Before(id + post, "id=");
      |piece| >= |id| && piece[..|id|] == id && (|piece| == |id| || piece[|id|] == '&')
  {
    var z := id + post;
    var m := |id|;
    assert |z| > m ==> z[m] == '&';
    forall i | 0 <= i <= m ensures !OccursAt(z, "id=", i) {
      if i + 3 <= m {
        assert z[i..i + 3] == id[i..i + 3];
        assert !OccursAt(id, "id=", i);
      } else if i + 3 <= |z| {
        assert z[i..i + 3][m - i] == z[m] == '&';
      }
    }
    var j := IndexOf(z, "id=");
    if j >= 0 {
      assert z[..j][..m] == z[..m];
    }
    assert z[..m] == id;
  }

  /** Cutting a piece that starts with an `&`-free id at its first `&` gives the id. */
  lemma {:induction false} CutAtAmpersand(piece: string, id: string)
    requires !Contains(id, "&")
    requires |piece| >= |id| && piece[..|id|] == id && (|piece| == |id| || piece[|id|] == '&')
    ensures Before(piece, "&") == id
  {
    var m := |id|;
    if |piece| == m {
      assert piece == id;
    } else {
      forall i | 0 <= i < m ensures !OccursAt(piece, "&", i) {
        assert piece[i] == piece[..m][i] == id[i];
        assert piece[i..i + 1] == [id[i]] == id[i..i + 1];
        assert !OccursAt(id, "&", i);
      }
      assert piece[m..m + 1] == "&";
      IndexOfIs(piece, "&", m);
    }
  }

  /** The share link a form stores, `<anything without id=>id=<ID>` optionally followed
      by `&<parameters>`, gives back exactly the ID. */
  lemma {:induction false} ExtractIdOfShareLink(pre: string, id: string, post: string)
    requires !Contains(pre, "id=")
    requires !Contains(id, "id=") && !Contains(id, "&")
    requires post == [] || post[0] == '&'
    ensures ExtractId(pre + "id=" + id + post) == Some(id)
  {
    var link := pre + "id=" + id + post;
    assert link == pre + "id=" + (id + post);
    FirstIdAfterPrefix(pre, id + post);
    assert After(link, "id=") == id + post;
    PieceKeepsId(id, post);
    CutAtAmpersand(Before(id + post, "id="), id);
  }
}
