/** Tag normalisation and resolution inside AddArticle (both variants): the
    trimmed tag field is split on commas, every piece trimmed, empty pieces
    dropped and repeats removed keeping the first occurrence; one batched
    lookup finds the tags that exist, the rest are created, and the
    association list is rebuilt in candidate order. */
module Tags {
  import opened Text
  import opened Models

  predicate Distinct<T(==)>(xs: seq<T>) {
    forall i, j :: 0 <= i < j < |xs| ==> xs[i] != xs[j]
  }

  /** Position of the first occurrence of x in xs. */
  function FirstIndex<T(==)>(xs: seq<T>, x: T): (i: nat)
    requires x in xs
    ensures i < |xs| && xs[i] == x && x !in xs[..i]
  {
    if xs[0] == x then 0 else 1 + FirstIndex(xs[1..], x)
  }

  /** The elements of r appear in the order of their first occurrence in xs. */
  predicate FirstSeenOrder<T(==)>(r: seq<T>, xs: seq<T>)
    requires forall x :: x in r ==> x in xs
  {
    forall i, j :: 0 <= i < j < |r| ==> FirstIndex(xs, r[i]) < FirstIndex(xs, r[j])
  }

  function MapTrim(pieces: seq<string>): (r: seq<string>)
    ensures |r| == |pieces|
    ensures forall i :: 0 <= i < |r| ==> r[i] == TrimSpace(pieces[i])
  {
    seq(|pieces|, i requires 0 <= i < |pieces| => TrimSpace(pieces[i]))
  }

  /** The trimmed comma-separated pieces of the tag field. */
  function Pieces(inputTags: string): seq<string> {
    MapTrim(Split(inputTags, ','))
  }

  /** tagsToProcess after the loop has seen the names xs: a name is appended
      when it is non-empty and not yet recorded. */
  function Kept(xs: seq<string>): seq<string> {
    if xs == [] then []
    else
      var prefix := Kept(xs[..|xs| - 1]);
      var x := xs[|xs| - 1];
      if x == "" || x in prefix then prefix else prefix + [x]
  }

  /** The candidate tag names of a (trimmed) tag field; none when it is empty. */
  function Candidates(inputTags: string): seq<string> {
    if inputTags == "" then [] else Kept(Pieces(inputTags))
  }

  lemma {:induction false} FirstIndexPrefix<T>(xs: seq<T>, y: T, x: T)
    requires x in xs
    ensures x in xs + [y] && FirstIndex(xs + [y], x) == FirstIndex(xs, x)
    decreases |xs|
  {
    if xs[0] != x {
      assert (xs + [y])[1..] == xs[1..] + [y];
      FirstIndexPrefix(xs[1..], y, x);
    }
  }

  lemma {:induction false} FirstIndexLast<T>(xs: seq<T>, x: T)
    requires x !in xs
    ensures FirstIndex(xs + [x], x) == |xs|
    decreases |xs|
  {
    if xs != [] {
      assert (xs + [x])[1..] == xs[1..] + [x];
      FirstIndexLast(xs[1..], x);
    }
  }

  /** Appending a name to the sequence does not move earlier first occurrences. */
  lemma OrderSurvivesAppend<T>(r: seq<T>, xs: seq<T>, y: T)
    requires forall x :: x in r ==> x in xs
    requires FirstSeenOrder(r, xs)
    ensures forall x :: x in r ==> x in xs + [y]
    ensures FirstSeenOrder(r, xs + [y])
  {
    forall x | x in r
      ensures FirstIndex(xs + [y], x) == FirstIndex(xs, x)
    {
      FirstIndexPrefix(xs, y, x);
    }
  }

  /** A name seen for the first time goes last in first-seen order. */
  lemma OrderTakesFresh<T>(r: seq<T>, xs: seq<T>, y: T)
    requires forall x :: x in r ==> x in xs
    requires FirstSeenOrder(r, xs) && y !in xs
    ensures forall x :: x in r + [y] ==> x in xs + [y]
    ensures FirstSeenOrder(r + [y], xs + [y])
  {
    OrderSurvivesAppend(r, xs, y);
    FirstIndexLast(xs, y);
    var r' := r + [y];
    forall i, j | 0 <= i < j < |r'|
      ensures FirstIndex(xs + [y], r'[i]) < FirstIndex(xs + [y], r'[j])
    {
      if j == |r'| - 1 {
        assert r'[i] in r;
      }
    }
  }

  /** What the loop keeps: no empty name, no repeat, and exactly the
      non-empty names seen (none at all when every name seen is empty). */
  lemma {:induction false} KeptSpec(xs: seq<string>)
    ensures "" !in Kept(xs)
    ensures Distinct(Kept(xs))
    ensures forall x :: x in Kept(xs) <==> x in xs && x != ""
    ensures (forall i :: 0 <= i < |xs| ==> xs[i] == "") ==> Kept(xs) == []
    decreases |xs|
  {
    if xs != [] {
      var init := xs[..|xs| - 1];
      KeptSpec(init);
      assert xs == init + [xs[|xs| - 1]];
    }
  }

  /** The loop keeps names in the order they were first seen. */
  lemma {:induction false} KeptOrder(xs: seq<string>)
    ensures forall x :: x in Kept(xs) ==> x in xs
    ensures FirstSeenOrder(Kept(xs), xs)
    decreases |xs|
  {
    KeptSpec(xs);
    if xs != [] {
      var init := xs[..|xs| - 1];
      var x := xs[|xs| - 1];
      var prefix := Kept(init);
      KeptSpec(init);
      KeptOrder(init);
      assert xs == init + [x];
      if x != "" && x !in prefix {
        OrderTakesFresh(prefix, init, x);
      } else {
        OrderSurvivesAppend(prefix, init, x);
      }
    }
  }

  /** Every candidate is a non-empty trimmed piece of the field, every non-empty
      trimmed piece is a candidate, no candidate repeats, and candidates keep
      the order in which they first appear. */
  lemma CandidatesSpec(inputTags: string)
    ensures var c := Candidates(inputTags);
            && "" !in c
            && Distinct(c)
            && (inputTags != "" ==> forall x :: x in c <==> x in Pieces(inputTags) && x != "")
            && (inputTags != "" ==> FirstSeenOrder(c, Pieces(inputTags)))
  {
    if inputTags != "" {
      KeptSpec(Pieces(inputTags));
      KeptOrder(Pieces(inputTags));
    }
  }

  /** A field of blanks and commas yields no candidate, so no lookup, insert
      or association happens. */
  lemma BlankFieldHasNoCandidates(inputTags: string)
    requires forall i :: 0 <= i < |inputTags| ==> inputTags[i] == ',' || IsSpace(inputTags[i])
    ensures Candidates(inputTags) == []
  {
    if inputTags != "" {
      var pieces := Split(inputTags, ',');
      var trimmed := Pieces(inputTags);
      forall k | 0 <= k < |pieces|
        ensures trimmed[k] == ""
      {
        BlankPiece(pieces, k, inputTags);
      }
      KeptSpec(trimmed);
    }
  }

  lemma BlankPiece(pieces: seq<string>, k: nat, s: string)
    requires pieces == Split(s, ',') && k < |pieces|
    requires forall i :: 0 <= i < |s| ==> s[i] == ',' || IsSpace(s[i])
    ensures TrimSpace(pieces[k]) == ""
  {
    var p := pieces[k];
    PieceIsInfix(pieces, k, ',');
    var t := TrimSpace(p);
    assert forall i :: 0 <= i < |p| ==> p[i] in s;
    assert forall i :: 0 <= i < |p| ==> IsSpace(p[i]) by {
      forall i | 0 <= i < |p|
        ensures IsSpace(p[i])
      {
        assert p[i] != ',';
        var j :| 0 <= j < |s| && s[j] == p[i];
      }
    }
  }

  /** Every character of a piece occurs in the joined string. */
  lemma {:induction false} PieceIsInfix(parts: seq<string>, k: nat, sep: char)
    requires |parts| >= 1 && k < |parts|
    ensures forall c :: c in parts[k] ==> c in Join(parts, sep)
    decreases |parts|
  {
    if |parts| > 1 {
      if k > 0 {
        PieceIsInfix(parts[1..], k - 1, sep);
      }
    }
  }

  /** One more iteration of the loop. */
  lemma KeptStep(xs: seq<string>, k: nat)
    requires k < |xs|
    ensures Kept(xs[..k + 1]) ==
      if xs[k] == "" || xs[k] in Kept(xs[..k]) then Kept(xs[..k]) else Kept(xs[..k]) + [xs[k]]
  {
    assert xs[..k + 1][..k] == xs[..k];
  }

  /** The names recorded in a list. */
  function Elems(xs: seq<string>): (r: set<string>)
    ensures forall x :: x in r <==> x in xs
  {
    set x | x in xs
  }

  lemma ElemsAppend(xs: seq<string>, x: string)
    ensures Elems(xs + [x]) == Elems(xs) + {x}
  {
  }

  /** The loop of lines 71-77 as written, with the seen-set uniqueTags. */
  method KeepFirstSeen(tagNames: seq<string>) returns (tagsToProcess: seq<string>)
    ensures tagsToProcess == Kept(MapTrim(tagNames))
  {
    ghost var trimmed := MapTrim(tagNames);
    var uniqueTags: set<string> := {};
    tagsToProcess := [];
    var k := 0;
    while k < |tagNames|
      invariant 0 <= k <= |tagNames|
      invariant tagsToProcess == Kept(trimmed[..k])
      invariant uniqueTags == Elems(tagsToProcess)
    {
      var tagName := TrimSpace(tagNames[k]);
      assert tagName == trimmed[k];
      KeptStep(trimmed, k);
      ElemsAppend(tagsToProcess, tagName);
      if tagName != "" && tagName !in uniqueTags {
        uniqueTags := uniqueTags + {tagName};
        tagsToProcess := tagsToProcess + [tagName];
      }
      k := k + 1;
    }
    assert trimmed[..k] == trimmed;
  }

  /** Lines 66-77: split the field on commas, then run the loop. */
  method CollectTags(inputTags: string) returns (tagsToProcess: seq<string>)
    requires inputTags != ""
    ensures tagsToProcess == Candidates(inputTags)
    ensures "" !in tagsToProcess && Distinct(tagsToProcess)
  {
    var tagNames := Split(inputTags, ',');
    tagsToProcess := KeepFirstSeen(tagNames);
    KeptSpec(MapTrim(tagNames));
  }

  // ------------------------------------------------------------- resolution

  /** existingTagMap: tag content to tag row, later rows overriding earlier ones. */
  function TagMap(found: seq<Tag>): (m: map<string, Tag>)
    ensures forall c :: c in m ==> m[c].content == c && m[c] in found
    ensures forall t :: t in found ==> t.content in m
  {
    if found == [] then map[]
    else
      var last := found[|found| - 1];
      var m := TagMap(found[..|found| - 1])[last.content := last];
      assert forall t :: t in found ==> t in found[..|found| - 1] || t == last;
      m
  }

  /** newTags: the candidates the lookup did not find, in candidate order. */
  function NewTagNames(cands: seq<string>, existing: map<string, Tag>): (r: seq<string>)
    ensures |r| <= |cands|
    ensures forall x :: x in r <==> x in cands && x !in existing
  {
    if cands == [] then []
    else
      var prefix := NewTagNames(cands[..|cands| - 1], existing);
      var c := cands[|cands| - 1];
      assert forall x :: x in cands <==> x in cands[..|cands| - 1] || x == c;
      if c in existing then prefix else prefix + [c]
  }

  /** New names inherit distinctness and candidate order. */
  lemma {:induction false} NewTagNamesOrder(cands: seq<string>, existing: map<string, Tag>)
    requires Distinct(cands)
    ensures Distinct(NewTagNames(cands, existing))
    ensures FirstSeenOrder(NewTagNames(cands, existing), cands)
    decreases |cands|
  {
    if cands != [] {
      var init := cands[..|cands| - 1];
      var c := cands[|cands| - 1];
      var prefix := NewTagNames(init, existing);
      NewTagNamesOrder(init, existing);
      assert cands == init + [c];
      assert c !in init;
      if c !in existing {
        OrderTakesFresh(prefix, init, c);
      } else {
        OrderSurvivesAppend(prefix, init, c);
      }
    }
  }

  /** articleTags: the resolved tag of every candidate, in candidate order. */
  function AssocList(cands: seq<string>, resolved: map<string, Tag>): (r: seq<Tag>)
    requires forall c :: c in cands ==> c in resolved
    ensures |r| == |cands|
  {
    seq(|cands|, i requires 0 <= i < |cands| => resolved[cands[i]])
  }

  /** The association list names one tag per candidate, with that candidate's
      content, in candidate order; distinct candidates give distinct tags. */
  lemma AssocListSpec(cands: seq<string>, resolved: map<string, Tag>)
    requires forall c :: c in cands ==> c in resolved
    requires forall c :: c in resolved ==> resolved[c].content == c
    ensures forall i :: 0 <= i < |cands| ==> AssocList(cands, resolved)[i].content == cands[i]
    ensures Distinct(cands) ==> Distinct(AssocList(cands, resolved))
  {
  }
}
