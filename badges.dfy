/**
 * `strip_badge_markup`: the risk text loses every opening `<Badge …>` tag
 * (`<Badge`, characters other than `>`, an optional `/`, then `>`), every
 * whitespace run becomes one space,
 * and the result is stripped. Whitespace is the ASCII set of `Text`.
 */
module Badges {
  import opened Text

  const BadgeOpen := "<Badge"

  /** The first `>` at or after `i`, or the end of `s`. */
  function CloseFrom(s: string, i: nat): (j: nat)
    requires i <= |s|
    ensures i <= j <= |s|
    ensures j < |s| ==> s[j] == '>'
    ensures forall k :: i <= k < j ==> s[k] != '>'
    decreases |s| - i
  {
    if i == |s| || s[i] == '>' then i else CloseFrom(s, i + 1)
  }

  /**
   * Whether a tag starts at the front of `s`: `<Badge` followed, possibly
   * after other characters, by a `>`. The tag then runs to the first `>`
   * (the run of non-`>` characters is greedy and cannot pass a `>`, and the
   * optional `/` can only be one that the run gave back).
   */
  predicate TagAtFront(s: string) {
    StartsWith(s, BadgeOpen) && CloseFrom(s, |BadgeOpen|) < |s|
  }

  /** The first substitution of `strip_badge_markup`: tags are removed left to right, the text between them kept. */
  function RemoveBadges(s: string): (r: string)
    ensures |r| <= |s|
    decreases |s|
  {
    if |s| == 0 then []
    else if TagAtFront(s) then RemoveBadges(s[CloseFrom(s, |BadgeOpen|) + 1..])
    else [s[0]] + RemoveBadges(s[1..])
  }

  /** Text without `<Badge` passes through unchanged; in particular a closing `</Badge>` survives. */
  lemma {:induction false} NoBadgeUnchanged(s: string)
    requires !Contains(s, BadgeOpen)
    ensures RemoveBadges(s) == s
    decreases |s|
  {
    if |s| > 0 {
      assert !OccursAt(s, BadgeOpen, 0);
      ContainsTail(s, BadgeOpen);
      NoBadgeUnchanged(s[1..]);
    }
  }

  /** A `<Badge` never followed by `>` is not a tag and is kept. */
  lemma {:induction false} UnclosedUnchanged(s: string)
    requires forall k :: 0 <= k < |s| ==> s[k] != '>'
    ensures RemoveBadges(s) == s
    decreases |s|
  {
    if |s| > 0 {
      if StartsWith(s, BadgeOpen) {
        assert CloseFrom(s, |BadgeOpen|) == |s|;
      }
      UnclosedUnchanged(s[1..]);
    }
  }

  /** No tag can start in text without `<Badge` and finish in what follows it. */
  lemma NoTagAcross(a: string, rest: string)
    requires |a| > 0 && !Contains(a, BadgeOpen) && StartsWith(rest, BadgeOpen)
    ensures !StartsWith(a + rest, BadgeOpen)
  {
    var s := a + rest;
    if |a| >= |BadgeOpen| {
      assert !OccursAt(a, BadgeOpen, 0);
      assert s[..|BadgeOpen|] == a[..|BadgeOpen|];
    } else if |BadgeOpen| <= |s| {
      assert s[|a|] == rest[0] == '<';
      assert BadgeOpen[|a|] != '<';
      assert s[..|BadgeOpen|][|a|] != BadgeOpen[|a|];
    }
  }

  /** A tag at the front is cut up to and including its first `>`. */
  lemma TagAtStart(m: string, b: string)
    requires forall k :: 0 <= k < |m| ==> m[k] != '>'
    ensures RemoveBadges(BadgeOpen + m + ">" + b) == RemoveBadges(b)
  {
    var s := BadgeOpen + m + ">" + b;
    var n := |BadgeOpen| + |m|;
    assert s[..|BadgeOpen|] == BadgeOpen;
    assert s[n] == '>';
    forall k | |BadgeOpen| <= k < n ensures s[k] != '>' {
      assert s[k] == m[k - |BadgeOpen|];
    }
    assert CloseFrom(s, |BadgeOpen|) == n;
    assert s[n + 1..] == b;
  }

  /**
   * Text without `<Badge` in front of a `<Badge` is kept as it is: no tag can
   * start inside it.
   */
  lemma {:induction false} PrefixKept(a: string, rest: string)
    requires !Contains(a, BadgeOpen) && StartsWith(rest, BadgeOpen)
    ensures RemoveBadges(a + rest) == a + RemoveBadges(rest)
    decreases |a|
  {
    if |a| == 0 {
      assert a + rest == rest;
    } else {
      ContainsTail(a, BadgeOpen);
      PrefixKept(a[1..], rest);
      NoTagAcross(a, rest);
      PrefixStep(a, rest);
    }
  }

  /** Without `<Badge` at the front of `a + rest`, the first character of `a` is kept. */
  lemma KeepFirst(a: string, rest: string)
    requires |a| > 0 && !StartsWith(a + rest, BadgeOpen)
    ensures RemoveBadges(a + rest) == [a[0]] + RemoveBadges(a[1..] + rest)
  {
    var s := a + rest;
    assert s[0] == a[0] && s[1..] == a[1..] + rest;
  }

  /** Putting the first character back in front. */
  lemma ConsBack(a: string, r: string)
    requires |a| > 0
    ensures [a[0]] + (a[1..] + r) == a + r
  {
    assert [a[0]] + a[1..] == a;
  }

  /** One character of such a prefix, given the rest of it. */
  lemma PrefixStep(a: string, rest: string)
    requires |a| > 0 && !StartsWith(a + rest, BadgeOpen)
    requires RemoveBadges(a[1..] + rest) == a[1..] + RemoveBadges(rest)
    ensures RemoveBadges(a + rest) == a + RemoveBadges(rest)
  {
    KeepFirst(a, rest);
    ConsBack(a, RemoveBadges(rest));
  }

  /**
   * The tag `<Badge…>` is cut from `<Badge` up to and including the first
   * `>` after it; what comes before it is kept as it was.
   */
  lemma TagRemoved(a: string, m: string, b: string)
    requires !Contains(a, BadgeOpen)
    requires forall k :: 0 <= k < |m| ==> m[k] != '>'
    ensures RemoveBadges(a + (BadgeOpen + m + ">" + b)) == a + RemoveBadges(b)
  {
    var rest := BadgeOpen + m + ">" + b;
    assert rest[..|BadgeOpen|] == BadgeOpen;
    PrefixKept(a, rest);
    TagAtStart(m, b);
  }

  /**
   * A `<Badge` never closed by a `>` is kept, whatever came before it,
   * including a `>` in the earlier text.
   */
  lemma UnclosedAfterText(a: string, m: string)
    requires !Contains(a, BadgeOpen)
    requires forall k :: 0 <= k < |m| ==> m[k] != '>'
    ensures RemoveBadges(a + (BadgeOpen + m)) == a + BadgeOpen + m
  {
    var rest := BadgeOpen + m;
    assert rest[..|BadgeOpen|] == BadgeOpen;
    PrefixKept(a, rest);
    UnclosedTag(m);
    ConcatAssoc(a, BadgeOpen, m);
  }

  /** `<Badge` with no `>` after it is kept whole. */
  lemma UnclosedTag(m: string)
    requires forall k :: 0 <= k < |m| ==> m[k] != '>'
    ensures RemoveBadges(BadgeOpen + m) == BadgeOpen + m
  {
    OpenHasNoClose();
    NoCloseConcat(BadgeOpen, m);
    UnclosedUnchanged(BadgeOpen + m);
  }

  /** Whether `s` has no `>`. */
  predicate NoClose(s: string) {
    forall k :: 0 <= k < |s| ==> s[k] != '>'
  }

  /** `<Badge` itself has no `>`. */
  lemma OpenHasNoClose()
    ensures NoClose(BadgeOpen)
  {
    assert BadgeOpen == ['<', 'B', 'a', 'd', 'g', 'e'];
  }

  /** Joining two texts without `>` gives none. */
  lemma NoCloseConcat(x: string, y: string)
    requires NoClose(x) && NoClose(y)
    ensures NoClose(x + y)
  {
    forall k | 0 <= k < |x + y| ensures (x + y)[k] != '>' {
      if k >= |x| {
        assert (x + y)[k] == y[k - |x|];
      }
    }
  }

  /**
   * A tag followed by text without `<Badge` leaves just that text; a closing
   * `</Badge>` contains no `<Badge`, so in `<Badge …>x</Badge>` it survives.
   */
  lemma TagThenText(m: string, x: string)
    requires forall k :: 0 <= k < |m| ==> m[k] != '>'
    requires !Contains(x, BadgeOpen)
    ensures RemoveBadges(BadgeOpen + m + ">" + x) == x
  {
    TagAtStart(m, x);
    NoBadgeUnchanged(x);
  }

  // ---------------------------------------------------------------------------
  // Whitespace runs.
  // ---------------------------------------------------------------------------

  /** The only whitespace is a single space, never followed by more whitespace. */
  predicate SingleSpaced(s: string) {
    forall i :: 0 <= i < |s| && IsSpace(s[i]) ==> s[i] == ' ' && (i + 1 < |s| ==> !IsSpace(s[i + 1]))
  }

  /** `re.sub(r'\s+', ' ', s)`: each maximal whitespace run becomes one space. */
  function CollapseSpace(s: string): (r: string)
    ensures |s| > 0 <==> |r| > 0
    ensures |s| > 0 ==> (IsSpace(s[0]) <==> IsSpace(r[0]))
    ensures SingleSpaced(r)
    decreases |s|
  {
    if |s| == 0 then []
    else if IsSpace(s[0]) then
      var rest := CollapseSpace(s[LeadingSpaces(s)..]);
      [' '] + rest
    else [s[0]] + CollapseSpace(s[1..])
  }

  /** The run of leading whitespace is determined by where it stops. */
  lemma LeadingSpacesAt(s: string, n: nat)
    requires n <= |s| && (forall i :: 0 <= i < n ==> IsSpace(s[i])) && (n < |s| ==> !IsSpace(s[n]))
    ensures LeadingSpaces(s) == n
  {
  }

  lemma CollapseAtSpace(s: string)
    requires |s| > 0 && IsSpace(s[0])
    ensures CollapseSpace(s) == " " + CollapseSpace(s[LeadingSpaces(s)..])
  {
  }

  lemma CollapseAtText(s: string)
    requires |s| > 0 && !IsSpace(s[0])
    ensures CollapseSpace(s) == [s[0]] + CollapseSpace(s[1..])
  {
  }

  /** The base case of `CollapseRun`: the run at the front. */
  lemma CollapseRunFront(w: string, b: string)
    requires |w| > 0 && AllSpace(w)
    requires |b| == 0 || !IsSpace(b[0])
    ensures CollapseSpace(w + b) == " " + CollapseSpace(b)
  {
    var s := w + b;
    LeadingSpacesAt(s, |w|);
    CollapseAtSpace(s);
    assert s[|w|..] == b;
  }

  /** The leading run of `x + y` is that of `x` when it stops inside `x`. */
  lemma LeadingSpacesConcat(x: string, y: string, n: nat)
    requires n < |x| && n == LeadingSpaces(x)
    ensures LeadingSpaces(x + y) == n && (x + y)[n..] == x[n..] + y
  {
    var s := x + y;
    assert forall i :: 0 <= i < n ==> s[i] == x[i];
    assert s[n] == x[n];
    LeadingSpacesAt(s, n);
  }

  /** `CollapseConcat` for text starting with whitespace, given the case for the text after that run. */
  lemma ConcatAfterSpace(x: string, y: string, n: nat)
    requires 0 < n < |x| && n == LeadingSpaces(x)
    requires CollapseSpace(x[n..] + y) == CollapseSpace(x[n..]) + CollapseSpace(y)
    ensures CollapseSpace(x + y) == CollapseSpace(x) + CollapseSpace(y)
  {
    var s := x + y;
    LeadingSpacesConcat(x, y, n);
    var cx, cy := CollapseSpace(x[n..]), CollapseSpace(y);
    calc {
      CollapseSpace(s);
      { CollapseAtSpace(s); }
      " " + CollapseSpace(x[n..] + y);
      " " + (cx + cy);
      { ConcatAssoc(" ", cx, cy); }
      (" " + cx) + cy;
      { CollapseAtSpace(x); }
      CollapseSpace(x) + cy;
    }
  }

  /** `CollapseConcat` for text starting with another character, given the case for the rest. */
  lemma ConcatAfterText(x: string, y: string)
    requires |x| > 0 && !IsSpace(x[0])
    requires CollapseSpace(x[1..] + y) == CollapseSpace(x[1..]) + CollapseSpace(y)
    ensures CollapseSpace(x + y) == CollapseSpace(x) + CollapseSpace(y)
  {
    var s := x + y;
    assert s[0] == x[0];
    assert s[1..] == x[1..] + y;
    var cx, cy := CollapseSpace(x[1..]), CollapseSpace(y);
    calc {
      CollapseSpace(s);
      { CollapseAtText(s); }
      [x[0]] + CollapseSpace(x[1..] + y);
      [x[0]] + (cx + cy);
      { ConcatAssoc([x[0]], cx, cy); }
      ([x[0]] + cx) + cy;
      { CollapseAtText(x); }
      CollapseSpace(x) + cy;
    }
  }

  /** Text that ends in a character other than whitespace is collapsed apart from what follows it. */
  lemma {:induction false} CollapseConcat(x: string, y: string)
    requires |x| == 0 || !IsSpace(x[|x| - 1])
    ensures CollapseSpace(x + y) == CollapseSpace(x) + CollapseSpace(y)
    decreases |x|
  {
    if |x| == 0 {
      assert x + y == y;
    } else if IsSpace(x[0]) {
      var n := LeadingSpaces(x);
      assert !IsSpace(x[|x| - 1]);
      assert n < |x|;
      assert x[n..][|x| - n - 1] == x[|x| - 1];
      CollapseConcat(x[n..], y);
      ConcatAfterSpace(x, y, n);
    } else {
      assert |x| > 1 ==> x[1..][|x| - 2] == x[|x| - 1];
      CollapseConcat(x[1..], y);
      ConcatAfterText(x, y);
    }
  }

  /**
   * A whitespace run between two non-whitespace characters, or between one
   * and an end of the text, becomes exactly one space; the text on either
   * side is collapsed on its own.
   */
  lemma CollapseRun(a: string, w: string, b: string)
    requires |a| == 0 || !IsSpace(a[|a| - 1])
    requires |w| > 0 && AllSpace(w)
    requires |b| == 0 || !IsSpace(b[0])
    ensures CollapseSpace(a + w + b) == CollapseSpace(a) + " " + CollapseSpace(b)
  {
    var ca, cb := CollapseSpace(a), CollapseSpace(b);
    calc {
      CollapseSpace(a + w + b);
      { ConcatAssoc(a, w, b); }
      CollapseSpace(a + (w + b));
      { CollapseConcat(a, w + b); }
      ca + CollapseSpace(w + b);
      { CollapseRunFront(w, b); }
      ca + (" " + cb);
      { ConcatAssoc(ca, " ", cb); }
      ca + " " + cb;
    }
  }

  /** The characters that are not whitespace, in order. */
  function NonSpace(s: string): (r: string)
    ensures forall i :: 0 <= i < |r| ==> !IsSpace(r[i])
  {
    if |s| == 0 then [] else (if IsSpace(s[0]) then [] else [s[0]]) + NonSpace(s[1..])
  }

  lemma {:induction false} NonSpaceAppend(a: string, b: string)
    ensures NonSpace(a + b) == NonSpace(a) + NonSpace(b)
    decreases |a|
  {
    if |a| == 0 {
      assert a + b == b;
    } else {
      assert (a + b)[0] == a[0] && (a + b)[1..] == a[1..] + b;
      NonSpaceAppend(a[1..], b);
    }
  }

  lemma {:induction false} NonSpaceOfSpaces(s: string)
    requires AllSpace(s)
    ensures NonSpace(s) == []
    decreases |s|
  {
    if |s| > 0 {
      NonSpaceOfSpaces(s[1..]);
    }
  }

  /** Collapsing whitespace keeps every other character, in order. */
  lemma {:induction false} CollapseKeepsText(s: string)
    ensures NonSpace(CollapseSpace(s)) == NonSpace(s)
    decreases |s|
  {
    if |s| > 0 {
      if IsSpace(s[0]) {
        var n := LeadingSpaces(s);
        CollapseKeepsText(s[n..]);
        assert s == s[..n] + s[n..];
        NonSpaceAppend(s[..n], s[n..]);
        NonSpaceOfSpaces(s[..n]);
        NonSpaceAppend([' '], CollapseSpace(s[n..]));
      } else {
        CollapseKeepsText(s[1..]);
        NonSpaceAppend([s[0]], CollapseSpace(s[1..]));
      }
    }
  }

  /** Text that is already single-spaced is left as it is. */
  lemma {:induction false} CollapseSingleSpaced(s: string)
    requires SingleSpaced(s)
    ensures CollapseSpace(s) == s
    decreases |s|
  {
    if |s| > 0 {
      if IsSpace(s[0]) {
        assert |s| > 1 ==> !IsSpace(s[1]);
        assert LeadingSpaces(s) == 1;
      }
      assert SingleSpaced(s[1..]) by {
        forall i | 0 <= i < |s| - 1 && IsSpace(s[1..][i])
          ensures s[1..][i] == ' ' && (i + 1 < |s| - 1 ==> !IsSpace(s[1..][i + 1]))
        {
          assert s[1..][i] == s[i + 1];
        }
      }
      CollapseSingleSpaced(s[1..]);
    }
  }

  /** Stripping keeps a single-spaced text single-spaced. */
  lemma TrimSingleSpaced(s: string)
    requires SingleSpaced(s)
    ensures SingleSpaced(Trim(s))
  {
    TrimSpec(s);
    var r := Trim(s);
    var a := LeadingSpaces(s);
    forall i | 0 <= i < |r| && IsSpace(r[i]) ensures r[i] == ' ' && (i + 1 < |r| ==> !IsSpace(r[i + 1])) {
      assert r[i] == s[a + i];
      if i + 1 < |r| {
        assert r[i + 1] == s[a + i + 1];
      }
    }
  }

  /** Stripping drops only whitespace. */
  lemma TrimKeepsText(s: string)
    ensures NonSpace(Trim(s)) == NonSpace(s)
  {
    TrimSpec(s);
    var r := Trim(s);
    var a := LeadingSpaces(s);
    assert s == s[..a] + (r + s[a + |r|..]);
    NonSpaceAppend(s[..a], r + s[a + |r|..]);
    NonSpaceAppend(r, s[a + |r|..]);
    NonSpaceOfSpaces(s[..a]);
    NonSpaceOfSpaces(s[a + |r|..]);
  }

  /**
   * `strip_badge_markup(text)`: empty text is returned as it is; otherwise
   * the tags are removed, whitespace runs collapsed and the ends stripped,
   * so the result is stripped and single-spaced.
   */
  function StripBadgeMarkup(text: string): (r: string)
    ensures text == "" ==> r == ""
    ensures IsTrimmed(r) && SingleSpaced(r)
  {
    if text == "" then text
    else
      var collapsed := CollapseSpace(RemoveBadges(text));
      TrimSingleSpaced(collapsed);
      Trim(collapsed)
  }

  /** Apart from the tags, no character other than whitespace is lost or reordered. */
  lemma StripKeepsText(text: string)
    ensures NonSpace(StripBadgeMarkup(text)) == NonSpace(RemoveBadges(text))
  {
    if text != "" {
      var collapsed := CollapseSpace(RemoveBadges(text));
      TrimKeepsText(collapsed);
      CollapseKeepsText(RemoveBadges(text));
    }
  }

  /** Text without `<Badge` that is already stripped and single-spaced comes back unchanged. */
  lemma StripCleanUnchanged(text: string)
    requires !Contains(text, BadgeOpen) && IsTrimmed(text) && SingleSpaced(text)
    ensures StripBadgeMarkup(text) == text
  {
    if text != "" {
      NoBadgeUnchanged(text);
      CollapseSingleSpaced(text);
      TrimTrimmed(text);
    }
  }
}
