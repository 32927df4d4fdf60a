/**
 * Intraline highlighting (computeInlineSegments in src/lib/splitDiff.ts):
 * trim the longest common prefix, then the longest common suffix that does
 * not reach into the prefix, and cut each side into at most three segments
 * (plain prefix, highlighted middle, plain suffix), leaving out empty ones.
 */
module InlineSegments {
  import opened MinMax

  datatype InlineSegment = InlineSegment(text: string, highlighted: bool)

  /** The text a side's segments spell out, in order. */
  function Concat(segs: seq<InlineSegment>): string
  {
    if segs == [] then [] else segs[0].text + Concat(segs[1..])
  }

  /** The texts of the unhighlighted segments, in order. */
  function PlainTexts(segs: seq<InlineSegment>): seq<string>
  {
    if segs == [] then []
    else (if segs[0].highlighted then [] else [segs[0].text]) + PlainTexts(segs[1..])
  }

  /** Number of highlighted segments. */
  function HighlightedCount(segs: seq<InlineSegment>): nat
  {
    if segs == [] then 0
    else (if segs[0].highlighted then 1 else 0) + HighlightedCount(segs[1..])
  }

  predicate NoEmptySegment(segs: seq<InlineSegment>)
  {
    forall i :: 0 <= i < |segs| ==> segs[i].text != []
  }

  /**
   * The length of the longest common prefix of `a` and `b`; what it means is
   * stated by CommonPrefixLenSpec.
   */
  function CommonPrefixLen(a: string, b: string): (n: nat)
    ensures n <= |a| && n <= |b|
  {
    if a == [] || b == [] || a[0] != b[0] then 0
    else 1 + CommonPrefixLen(a[1..], b[1..])
  }

  /** The sides agree up to the common prefix length, and differ (or one ends) right after it. */
  lemma {:induction false} CommonPrefixLenSpec(a: string, b: string)
    ensures a[..CommonPrefixLen(a, b)] == b[..CommonPrefixLen(a, b)]
    ensures CommonPrefixLen(a, b) < |a| && CommonPrefixLen(a, b) < |b|
            ==> a[CommonPrefixLen(a, b)] != b[CommonPrefixLen(a, b)]
  {
    if !(a == [] || b == [] || a[0] != b[0]) {
      var m := CommonPrefixLen(a[1..], b[1..]);
      CommonPrefixLenSpec(a[1..], b[1..]);
      assert a[..m + 1] == [a[0]] + a[1..][..m];
      assert b[..m + 1] == [b[0]] + b[1..][..m];
    }
  }

  /**
   * The length of the longest common suffix of `a` and `b` that is at most
   * `bound` long; what it means is stated by CommonSuffixLenSpec.
   */
  function CommonSuffixLen(a: string, b: string, bound: nat): (n: nat)
    requires bound <= |a| && bound <= |b|
    ensures n <= bound
  {
    if bound == 0 || a[|a| - 1] != b[|b| - 1] then 0
    else 1 + CommonSuffixLen(a[..|a| - 1], b[..|b| - 1], bound - 1)
  }

  /** The last `n` characters agree, and the ones before them differ unless the bound was reached. */
  lemma {:induction false} CommonSuffixLenSpec(a: string, b: string, bound: nat)
    requires bound <= |a| && bound <= |b|
    ensures a[|a| - CommonSuffixLen(a, b, bound)..] == b[|b| - CommonSuffixLen(a, b, bound)..]
    ensures CommonSuffixLen(a, b, bound) < bound
            ==> a[|a| - 1 - CommonSuffixLen(a, b, bound)] != b[|b| - 1 - CommonSuffixLen(a, b, bound)]
  {
    if !(bound == 0 || a[|a| - 1] != b[|b| - 1]) {
      var a', b' := a[..|a| - 1], b[..|b| - 1];
      var m := CommonSuffixLen(a', b', bound - 1);
      CommonSuffixLenSpec(a', b', bound - 1);
      SuffixSnoc(a, m);
      SuffixSnoc(b, m);
    }
  }

  /** A suffix of `s` one longer than `k` is the `k`-suffix of `s` without its last character, then that character. */
  lemma SuffixSnoc(s: string, k: nat)
    requires k < |s|
    ensures s[|s| - (k + 1)..] == s[..|s| - 1][|s| - 1 - k..] + [s[|s| - 1]]
  {
  }

  /** The bound the suffix scan obeys: it may not overlap the prefix on either side. */
  function SuffixBound(oldText: string, newText: string): nat
  {
    Min(|oldText|, |newText|) - CommonPrefixLen(oldText, newText)
  }

  /** Cut `text` into prefix (plain), middle (highlighted) and suffix (plain), omitting empty parts. */
  function Partition(text: string, prefix: nat, suffix: nat): seq<InlineSegment>
    requires prefix + suffix <= |text|
  {
    PrefixPart(text, prefix) + MiddlePart(text, prefix, suffix) + SuffixPart(text, suffix)
  }

  function PrefixPart(text: string, prefix: nat): seq<InlineSegment>
    requires prefix <= |text|
  {
    if prefix > 0 then [InlineSegment(text[..prefix], false)] else []
  }

  function MiddlePart(text: string, prefix: nat, suffix: nat): seq<InlineSegment>
    requires prefix + suffix <= |text|
  {
    if text[prefix..|text| - suffix] != [] then [InlineSegment(text[prefix..|text| - suffix], true)] else []
  }

  function SuffixPart(text: string, suffix: nat): seq<InlineSegment>
    requires suffix <= |text|
  {
    if suffix > 0 then [InlineSegment(text[|text| - suffix..], false)] else []
  }

  /**
   * The pair of segment lists for the old (left) and new (right) text.
   * Nothing is lost: each side's segments spell out exactly that side's text.
   */
  function Highlight(oldText: string, newText: string): (segs: (seq<InlineSegment>, seq<InlineSegment>))
    ensures Concat(segs.0) == oldText
    ensures Concat(segs.1) == newText
  {
    var prefix := CommonPrefixLen(oldText, newText);
    var suffix := CommonSuffixLen(oldText, newText, SuffixBound(oldText, newText));
    PartitionConcat(oldText, prefix, suffix);
    PartitionConcat(newText, prefix, suffix);
    (Partition(oldText, prefix, suffix), Partition(newText, prefix, suffix))
  }

  lemma {:induction false} ConcatAppend(s: seq<InlineSegment>, t: seq<InlineSegment>)
    ensures Concat(s + t) == Concat(s) + Concat(t)
  {
    if s != [] {
      calc {
        Concat(s + t);
        (s + t)[0].text + Concat((s + t)[1..]);
        { assert (s + t)[0] == s[0]; assert (s + t)[1..] == s[1..] + t; }
        s[0].text + Concat(s[1..] + t);
        { ConcatAppend(s[1..], t); }
        s[0].text + (Concat(s[1..]) + Concat(t));
      }
    } else {
      assert s + t == t;
    }
  }

  lemma {:induction false} PlainTextsAppend(s: seq<InlineSegment>, t: seq<InlineSegment>)
    ensures PlainTexts(s + t) == PlainTexts(s) + PlainTexts(t)
  {
    if s != [] {
      calc {
        PlainTexts(s + t);
        { assert (s + t)[0] == s[0]; assert (s + t)[1..] == s[1..] + t; }
        (if s[0].highlighted then [] else [s[0].text]) + PlainTexts(s[1..] + t);
        { PlainTextsAppend(s[1..], t); }
        (if s[0].highlighted then [] else [s[0].text]) + (PlainTexts(s[1..]) + PlainTexts(t));
      }
    } else {
      assert s + t == t;
    }
  }

  lemma {:induction false} HighlightedCountAppend(s: seq<InlineSegment>, t: seq<InlineSegment>)
    ensures HighlightedCount(s + t) == HighlightedCount(s) + HighlightedCount(t)
  {
    if s != [] {
      assert (s + t)[0] == s[0];
      assert (s + t)[1..] == s[1..] + t;
      HighlightedCountAppend(s[1..], t);
    } else {
      assert s + t == t;
    }
  }

  lemma SingletonFacts(x: InlineSegment)
    ensures Concat([x]) == x.text
    ensures PlainTexts([x]) == if x.highlighted then [] else [x.text]
    ensures HighlightedCount([x]) == if x.highlighted then 1 else 0
  {
    assert [x][1..] == [];
  }

  /** Each optional piece spells out its own slice of the text (nothing, when it is omitted). */
  lemma PartsConcat(text: string, prefix: nat, suffix: nat)
    requires prefix + suffix <= |text|
    ensures Concat(PrefixPart(text, prefix)) == text[..prefix]
    ensures Concat(MiddlePart(text, prefix, suffix)) == text[prefix..|text| - suffix]
    ensures Concat(SuffixPart(text, suffix)) == text[|text| - suffix..]
  {
    SingletonFacts(InlineSegment(text[..prefix], false));
    SingletonFacts(InlineSegment(text[prefix..|text| - suffix], true));
    SingletonFacts(InlineSegment(text[|text| - suffix..], false));
  }

  /** A partition spells out exactly the text it was cut from. */
  lemma PartitionConcat(text: string, prefix: nat, suffix: nat)
    requires prefix + suffix <= |text|
    ensures Concat(Partition(text, prefix, suffix)) == text
  {
    var p, m, s := PrefixPart(text, prefix), MiddlePart(text, prefix, suffix), SuffixPart(text, suffix);
    ConcatAppend(p, m);
    ConcatAppend(p + m, s);
    PartsConcat(text, prefix, suffix);
    ThreeSlices(text, prefix, |text| - suffix);
  }

  /** Cutting a text at two points and gluing the pieces back gives the text. */
  lemma ThreeSlices(text: string, i: nat, j: nat)
    requires i <= j <= |text|
    ensures text == text[..i] + text[i..j] + text[j..]
  {
  }

  /** No piece of a partition is empty, and at most one is highlighted. */
  lemma PartitionCounts(text: string, prefix: nat, suffix: nat)
    requires prefix + suffix <= |text|
    ensures NoEmptySegment(Partition(text, prefix, suffix))
    ensures HighlightedCount(Partition(text, prefix, suffix)) <= 1
  {
    var p, m, s := PrefixPart(text, prefix), MiddlePart(text, prefix, suffix), SuffixPart(text, suffix);
    HighlightedCountAppend(p, m);
    HighlightedCountAppend(p + m, s);
    if p != [] { SingletonFacts(p[0]); assert text[..prefix][0] == text[0]; }
    if m != [] { SingletonFacts(m[0]); }
    if s != [] { SingletonFacts(s[0]); assert text[|text| - suffix..][0] == text[|text| - suffix]; }
    NoEmptyAppend(p, m);
    NoEmptyAppend(p + m, s);
  }

  /** Gluing two lists without empty segments gives a list without empty segments. */
  lemma NoEmptyAppend(s: seq<InlineSegment>, t: seq<InlineSegment>)
    requires NoEmptySegment(s) && NoEmptySegment(t)
    ensures NoEmptySegment(s + t)
  {
    forall i | 0 <= i < |s + t| ensures (s + t)[i].text != [] {
      if i < |s| { assert (s + t)[i] == s[i]; } else { assert (s + t)[i] == t[i - |s|]; }
    }
  }

  /** The plain pieces of a partition are the prefix and then the suffix, each when it is non-empty. */
  lemma PartitionPlainTexts(text: string, prefix: nat, suffix: nat)
    requires prefix + suffix <= |text|
    ensures PlainTexts(Partition(text, prefix, suffix))
         == (if prefix > 0 then [text[..prefix]] else []) + (if suffix > 0 then [text[|text| - suffix..]] else [])
  {
    var p, m, s := PrefixPart(text, prefix), MiddlePart(text, prefix, suffix), SuffixPart(text, suffix);
    PlainTextsAppend(p, m);
    PlainTextsAppend(p + m, s);
    if p != [] { SingletonFacts(p[0]); }
    if m != [] { SingletonFacts(m[0]); }
    if s != [] { SingletonFacts(s[0]); }
  }

  /**
   * The shape of the result: no segment is empty, at most one segment per
   * side is highlighted, and the plain (unchanged) segments carry identical
   * text on both sides.
   */
  lemma HighlightShape(oldText: string, newText: string)
    ensures NoEmptySegment(Highlight(oldText, newText).0)
    ensures NoEmptySegment(Highlight(oldText, newText).1)
    ensures HighlightedCount(Highlight(oldText, newText).0) <= 1
    ensures HighlightedCount(Highlight(oldText, newText).1) <= 1
    ensures PlainTexts(Highlight(oldText, newText).0) == PlainTexts(Highlight(oldText, newText).1)
  {
    var prefix, suffix := HighlightCuts(oldText, newText);
    PartitionsShape(oldText, newText, prefix, suffix);
  }

  /** Two texts cut at a shared prefix and suffix have partitions of the shape HighlightShape states. */
  lemma PartitionsShape(oldText: string, newText: string, prefix: nat, suffix: nat)
    requires prefix + suffix <= |oldText| && prefix + suffix <= |newText|
    requires oldText[..prefix] == newText[..prefix]
    requires oldText[|oldText| - suffix..] == newText[|newText| - suffix..]
    ensures NoEmptySegment(Partition(oldText, prefix, suffix))
    ensures NoEmptySegment(Partition(newText, prefix, suffix))
    ensures HighlightedCount(Partition(oldText, prefix, suffix)) <= 1
    ensures HighlightedCount(Partition(newText, prefix, suffix)) <= 1
    ensures PlainTexts(Partition(oldText, prefix, suffix)) == PlainTexts(Partition(newText, prefix, suffix))
  {
    PartitionCounts(oldText, prefix, suffix);
    PartitionCounts(newText, prefix, suffix);
    PartitionsAgree(oldText, newText, prefix, suffix);
  }

  /**
   * Both sides are cut at the same two points, and the text before the first
   * and after the second is the same on both sides.
   */
  lemma HighlightCuts(oldText: string, newText: string) returns (prefix: nat, suffix: nat)
    ensures prefix + suffix <= |oldText| && prefix + suffix <= |newText|
    ensures oldText[..prefix] == newText[..prefix]
    ensures oldText[|oldText| - suffix..] == newText[|newText| - suffix..]
    ensures Highlight(oldText, newText) == (Partition(oldText, prefix, suffix), Partition(newText, prefix, suffix))
  {
    prefix := CommonPrefixLen(oldText, newText);
    suffix := CommonSuffixLen(oldText, newText, SuffixBound(oldText, newText));
    CommonPrefixLenSpec(oldText, newText);
    CommonSuffixLenSpec(oldText, newText, SuffixBound(oldText, newText));
  }

  /** Cuts at the same common prefix and suffix leave the same plain texts on both sides. */
  lemma PartitionsAgree(oldText: string, newText: string, prefix: nat, suffix: nat)
    requires prefix + suffix <= |oldText| && prefix + suffix <= |newText|
    requires oldText[..prefix] == newText[..prefix]
    requires oldText[|oldText| - suffix..] == newText[|newText| - suffix..]
    ensures PlainTexts(Partition(oldText, prefix, suffix)) == PlainTexts(Partition(newText, prefix, suffix))
  {
    PartitionPlainTexts(oldText, prefix, suffix);
    PartitionPlainTexts(newText, prefix, suffix);
  }

  /** Equal lines are never shown as changed: one plain segment per side, or none for empty text. */
  lemma HighlightEqual(text: string)
    ensures Highlight(text, text)
         == if text == [] then ([], []) else ([InlineSegment(text, false)], [InlineSegment(text, false)])
  {
    var p := CommonPrefixLen(text, text);
    CommonPrefixLenSpec(text, text);
    assert p == |text|;
    var s := CommonSuffixLen(text, text, SuffixBound(text, text));
    assert s == 0;
    assert text[p..|text| - s] == [];
    assert text[..p] == text;
    assert Highlight(text, text) == (Partition(text, p, s), Partition(text, p, s));
    if text == [] {
      assert Partition(text, p, s) == [];
    } else {
      assert Partition(text, p, s) == [InlineSegment(text, false)];
    }
  }

  /** Lines sharing neither their first nor their last character are highlighted whole. */
  lemma HighlightDisjoint(oldText: string, newText: string)
    requires oldText != [] && newText != []
    requires oldText[0] != newText[0]
    requires oldText[|oldText| - 1] != newText[|newText| - 1]
    ensures Highlight(oldText, newText)
         == ([InlineSegment(oldText, true)], [InlineSegment(newText, true)])
  {
    var p := CommonPrefixLen(oldText, newText);
    var s := CommonSuffixLen(oldText, newText, SuffixBound(oldText, newText));
    assert p == 0 && s == 0;
    assert oldText[0..|oldText|] == oldText;
    assert newText[0..|newText|] == newText;
    assert Partition(oldText, p, s) == [InlineSegment(oldText, true)];
    assert Partition(newText, p, s) == [InlineSegment(newText, true)];
  }

  /**
   * Pure insertion at the end: when the old text is a proper prefix of the
   * new one, the old side is all plain and only the new tail is highlighted.
   */
  lemma HighlightAppended(oldText: string, tail: string)
    requires tail != []
    ensures oldText == [] ==> Highlight(oldText, oldText + tail) == ([], [InlineSegment(tail, true)])
    ensures oldText != [] ==>
              Highlight(oldText, oldText + tail)
              == ([InlineSegment(oldText, false)], [InlineSegment(oldText, false), InlineSegment(tail, true)])
  {
    var newText := oldText + tail;
    var p := CommonPrefixLen(oldText, newText);
    CommonPrefixLenSpec(oldText, newText);
    assert p == |oldText|;
    var s := CommonSuffixLen(oldText, newText, SuffixBound(oldText, newText));
    assert s == 0;
    assert oldText[..p] == oldText && newText[..p] == oldText;
    assert oldText[p..|oldText|] == [];
    assert newText[p..|newText|] == tail;
    if oldText == [] {
      assert newText == tail;
      assert Partition(oldText, p, s) == [];
      assert Partition(newText, p, s) == [InlineSegment(tail, true)];
    } else {
      assert Partition(oldText, p, s) == [InlineSegment(oldText, false)];
      assert Partition(newText, p, s) == [InlineSegment(oldText, false), InlineSegment(tail, true)];
    }
  }

  /** The common prefix does not depend on which text is the old one. */
  lemma {:induction false} CommonPrefixLenSymmetric(a: string, b: string)
    ensures CommonPrefixLen(a, b) == CommonPrefixLen(b, a)
  {
    if !(a == [] || b == [] || a[0] != b[0]) {
      CommonPrefixLenSymmetric(a[1..], b[1..]);
    }
  }

  /** Nor does the bounded common suffix. */
  lemma {:induction false} CommonSuffixLenSymmetric(a: string, b: string, bound: nat)
    requires bound <= |a| && bound <= |b|
    ensures CommonSuffixLen(a, b, bound) == CommonSuffixLen(b, a, bound)
  {
    if !(bound == 0 || a[|a| - 1] != b[|b| - 1]) {
      CommonSuffixLenSymmetric(a[..|a| - 1], b[..|b| - 1], bound - 1);
    }
  }

  /**
   * The highlighter treats both sides alike: swapping the texts swaps the
   * two segment lists and changes nothing else.
   */
  lemma HighlightSwap(a: string, b: string)
    ensures Highlight(b, a) == (Highlight(a, b).1, Highlight(a, b).0)
  {
    CommonPrefixLenSymmetric(a, b);
    assert SuffixBound(a, b) == SuffixBound(b, a);
    CommonSuffixLenSymmetric(a, b, SuffixBound(a, b));
  }

  /**
   * Pure deletion at the end: when the new text is a proper prefix of the
   * old one, the new side is all plain and only the old tail is highlighted.
   */
  lemma HighlightTruncated(newText: string, tail: string)
    requires tail != []
    ensures newText == [] ==> Highlight(newText + tail, newText) == ([InlineSegment(tail, true)], [])
    ensures newText != [] ==>
              Highlight(newText + tail, newText)
              == ([InlineSegment(newText, false), InlineSegment(tail, true)], [InlineSegment(newText, false)])
  {
    HighlightAppended(newText, tail);
    HighlightSwap(newText, newText + tail);
  }

  /** A change in the last character: "bar" against "baz". */
  lemma HighlightExampleBarBaz()
    ensures Highlight("bar", "baz")
         == ([InlineSegment("ba", false), InlineSegment("r", true)],
             [InlineSegment("ba", false), InlineSegment("z", true)])
  {
    var p := CommonPrefixLen("bar", "baz");
    assert "bar"[..2] == "baz"[..2];
    assert p == 2;
    var s := CommonSuffixLen("bar", "baz", SuffixBound("bar", "baz"));
    assert s == 0;
    assert "bar"[..2] == "ba" && "bar"[2..3] == "r";
    assert "baz"[..2] == "ba" && "baz"[2..3] == "z";
    assert Partition("bar", p, s) == [InlineSegment("ba", false), InlineSegment("r", true)];
    assert Partition("baz", p, s) == [InlineSegment("ba", false), InlineSegment("z", true)];
  }

  /**
   * computeInlineSegments: two counting loops, then up to three pushes per
   * side. It computes exactly Highlight.
   */
  method ComputeInlineSegments(oldText: string, newText: string)
    returns (oldSegs: seq<InlineSegment>, newSegs: seq<InlineSegment>)
    ensures (oldSegs, newSegs) == Highlight(oldText, newText)
    ensures Concat(oldSegs) == oldText && Concat(newSegs) == newText
  {
    var prefix := 0;
    while prefix < |oldText| && prefix < |newText| && oldText[prefix] == newText[prefix]
      invariant prefix <= |oldText| && prefix <= |newText|
      invariant forall i :: 0 <= i < prefix ==> oldText[i] == newText[i]
    {
      prefix := prefix + 1;
    }

    var suffix := 0;
    while suffix < |oldText| - prefix && suffix < |newText| - prefix
          && oldText[|oldText| - 1 - suffix] == newText[|newText| - 1 - suffix]
      invariant suffix <= |oldText| - prefix && suffix <= |newText| - prefix
      invariant forall i :: |oldText| - suffix <= i < |oldText| ==> oldText[i] == newText[i - |oldText| + |newText|]
    {
      suffix := suffix + 1;
    }

    oldSegs, newSegs := [], [];
    if prefix > 0 {
      oldSegs := oldSegs + [InlineSegment(oldText[..prefix], false)];
      newSegs := newSegs + [InlineSegment(newText[..prefix], false)];
    }
    assert oldSegs == PrefixPart(oldText, prefix) && newSegs == PrefixPart(newText, prefix);
    var oldMid := oldText[prefix..|oldText| - suffix];
    var newMid := newText[prefix..|newText| - suffix];
    assert MiddlePart(oldText, prefix, suffix) == if oldMid != [] then [InlineSegment(oldMid, true)] else [];
    assert MiddlePart(newText, prefix, suffix) == if newMid != [] then [InlineSegment(newMid, true)] else [];
    if oldMid != [] {
      oldSegs := oldSegs + [InlineSegment(oldMid, true)];
    }
    assert oldSegs == PrefixPart(oldText, prefix) + MiddlePart(oldText, prefix, suffix);
    if newMid != [] {
      newSegs := newSegs + [InlineSegment(newMid, true)];
    }
    assert newSegs == PrefixPart(newText, prefix) + MiddlePart(newText, prefix, suffix);
    ghost var oldHead, newHead := oldSegs, newSegs;
    if suffix > 0 {
      oldSegs := oldSegs + [InlineSegment(oldText[|oldText| - suffix..], false)];
      newSegs := newSegs + [InlineSegment(newText[|newText| - suffix..], false)];
    }
    assert oldSegs == oldHead + SuffixPart(oldText, suffix);
    assert newSegs == newHead + SuffixPart(newText, suffix);
    ScanMatchesHighlight(oldText, newText, prefix, suffix);
  }

  /** The counters the two scans stop at give exactly Highlight's partition. */
  lemma ScanMatchesHighlight(oldText: string, newText: string, prefix: nat, suffix: nat)
    requires prefix <= |oldText| && prefix <= |newText|
    requires forall i :: 0 <= i < prefix ==> oldText[i] == newText[i]
    requires prefix == |oldText| || prefix == |newText| || oldText[prefix] != newText[prefix]
    requires suffix <= |oldText| - prefix && suffix <= |newText| - prefix
    requires forall i :: |oldText| - suffix <= i < |oldText| ==> oldText[i] == newText[i - |oldText| + |newText|]
    requires suffix == |oldText| - prefix || suffix == |newText| - prefix
          || oldText[|oldText| - 1 - suffix] != newText[|newText| - 1 - suffix]
    ensures Highlight(oldText, newText) == (Partition(oldText, prefix, suffix), Partition(newText, prefix, suffix))
  {
    PrefixLenUnique(oldText, newText, prefix);
    SuffixLenUnique(oldText, newText, SuffixBound(oldText, newText), suffix);
  }

  /** The conditions the prefix loop stops on determine the common prefix length. */
  lemma {:induction false} PrefixLenUnique(a: string, b: string, n: nat)
    requires n <= |a| && n <= |b|
    requires forall i :: 0 <= i < n ==> a[i] == b[i]
    requires n == |a| || n == |b| || a[n] != b[n]
    ensures n == CommonPrefixLen(a, b)
    decreases n
  {
    if n > 0 {
      PrefixLenUnique(a[1..], b[1..], n - 1);
    }
  }

  /** The conditions the suffix loop stops on determine the bounded common suffix length. */
  lemma {:induction false} SuffixLenUnique(a: string, b: string, bound: nat, n: nat)
    requires bound <= |a| && bound <= |b| && n <= bound
    requires forall i :: |a| - n <= i < |a| ==> a[i] == b[i - |a| + |b|]
    requires n == bound || a[|a| - 1 - n] != b[|b| - 1 - n]
    ensures n == CommonSuffixLen(a, b, bound)
    decreases n
  {
    if n > 0 {
      assert a[|a| - 1] == b[|b| - 1];
      SuffixLenUnique(a[..|a| - 1], b[..|b| - 1], bound - 1, n - 1);
    }
  }
}
