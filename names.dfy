/**
 * File names of the dataset: which directory entries are images (`".png" in x`,
 * utils/dataset.py line 52) and how an image name is turned into the name of its
 * mask (`"segmentation_" + "_".join(name.split("_")[1:])`, line 100).
 */
module Names {

  /** Python's `sub in s` on strings: some contiguous slice of `s` equals `sub`. */
  predicate HasSubstring(s: string, sub: string)
    ensures HasSubstring(s, sub) ==> |sub| <= |s|
    ensures sub == [] ==> HasSubstring(s, sub)
    decreases |s|
  {
    if |s| < |sub| then false
    else s[..|sub|] == sub || HasSubstring(s[1..], sub)
  }

  /** `sub` occurs in `s` starting at position `i`. */
  ghost predicate OccursAt(s: string, sub: string, i: int)
  {
    0 <= i && i + |sub| <= |s| && s[i..i + |sub|] == sub
  }

  /** The substring test holds exactly when `sub` occurs at some position of `s`. */
  lemma {:induction false} HasSubstringIff(s: string, sub: string)
    ensures HasSubstring(s, sub) <==> exists i :: OccursAt(s, sub, i)
    decreases |s|
  {
    if |s| >= |sub| {
      if s[..|sub|] == sub {
        assert OccursAt(s, sub, 0);
      } else {
        HasSubstringIff(s[1..], sub);
        if exists i :: OccursAt(s[1..], sub, i) {
          var i :| OccursAt(s[1..], sub, i);
          assert s[1..][i..i + |sub|] == s[i + 1..i + 1 + |sub|];
          assert OccursAt(s, sub, i + 1);
        }
        if exists i :: OccursAt(s, sub, i) {
          var i :| OccursAt(s, sub, i);
          assert s[1..][i - 1..i - 1 + |sub|] == s[i..i + |sub|];
          assert OccursAt(s[1..], sub, i - 1);
        }
      }
    }
  }

  /** The filter of line 52: the name contains ".png" anywhere, not only as its suffix. */
  predicate IsPng(name: string)
    ensures IsPng(name) <==> exists i :: OccursAt(name, ".png", i)
  {
    HasSubstringIff(name, ".png");
    HasSubstring(name, ".png")
  }

  /** ".png" is recognised wherever it stands in a name: "a.png.txt" is an image too. */
  lemma PngAnywhere(before: string, after: string)
    ensures IsPng(before + ".png" + after)
  {
    var name := before + ".png" + after;
    assert OccursAt(name, ".png", |before|);
  }

  /** `list(filter(lambda x: ".png" in x, listing))`: the image names, in listing order. */
  function PngNames(listing: seq<string>): (names: seq<string>)
    ensures |names| <= |listing|
    ensures forall x :: x in names <==> x in listing && IsPng(x)
  {
    if listing == [] then []
    else if IsPng(listing[0]) then [listing[0]] + PngNames(listing[1..])
    else PngNames(listing[1..])
  }

  /** Filtering distributes over concatenation of listings. */
  lemma {:induction false} PngNamesAppend(a: seq<string>, b: seq<string>)
    ensures PngNames(a + b) == PngNames(a) + PngNames(b)
  {
    if a == [] {
      assert a + b == b;
    } else {
      assert (a + b)[0] == a[0];
      assert (a + b)[1..] == a[1..] + b;
      PngNamesAppend(a[1..], b);
    }
  }

  /** The positions of the listing whose entries contain ".png", in increasing order. */
  ghost function PngPositions(listing: seq<string>): seq<nat>
    decreases |listing|
  {
    if listing == [] then []
    else
      var last := |listing| - 1;
      PngPositions(listing[..last]) + (if IsPng(listing[last]) then [last] else [])
  }

  /** The listed positions lie inside the listing and strictly increase. */
  lemma {:induction false} PngPositionsIncrease(listing: seq<string>)
    ensures forall k :: 0 <= k < |PngPositions(listing)| ==> PngPositions(listing)[k] < |listing|
    ensures forall k, l :: 0 <= k < l < |PngPositions(listing)| ==>
      PngPositions(listing)[k] < PngPositions(listing)[l]
    decreases |listing|
  {
    if listing != [] {
      var last := |listing| - 1;
      var init := listing[..last];
      PngPositionsIncrease(init);
      var p := PngPositions(init);
      assert PngPositions(listing) == p + (if IsPng(listing[last]) then [last] else []);
    }
  }

  /** A position is listed exactly when its entry contains ".png". */
  lemma {:induction false} PngPositionsExact(listing: seq<string>)
    ensures forall j :: 0 <= j < |listing| ==> (IsPng(listing[j]) <==> j in PngPositions(listing))
    decreases |listing|
  {
    if listing != [] {
      var last := |listing| - 1;
      var init := listing[..last];
      PngPositionsExact(init);
      PngPositionsIncrease(init);
      var p := PngPositions(init);
      assert last !in p;
      var now := PngPositions(listing);
      assert now == p + (if IsPng(listing[last]) then [last] else []);
      forall j | 0 <= j < |listing|
        ensures IsPng(listing[j]) <==> j in now
      {
        if j < last {
          assert listing[j] == init[j];
          assert j in now <==> j in p;
        }
      }
    }
  }

  /** The k-th image name is the listing entry at the k-th listed position. */
  lemma {:induction false} PngNamesAtPositions(listing: seq<string>)
    ensures |PngNames(listing)| == |PngPositions(listing)|
    ensures forall k :: 0 <= k < |PngPositions(listing)| ==>
      PngPositions(listing)[k] < |listing| && PngNames(listing)[k] == listing[PngPositions(listing)[k]]
    decreases |listing|
  {
    if listing != [] {
      var last := |listing| - 1;
      var init := listing[..last];
      var x := listing[last];
      assert listing == init + [x];
      PngNamesAppend(init, [x]);
      assert [x][1..] == [];
      PngNamesAtPositions(init);
      PngPositionsIncrease(init);
      var p, names := PngPositions(init), PngNames(init);
      assert PngPositions(listing) == p + (if IsPng(x) then [last] else []);
      assert PngNames(listing) == names + (if IsPng(x) then [x] else []);
      assert forall k :: 0 <= k < |p| ==> listing[p[k]] == init[p[k]];
    }
  }

  /**
   * The image list is exactly the order-preserving subsequence of the listing made of
   * the entries that contain ".png": its k-th name is the listing entry at the k-th
   * such position, the positions increase, and every such position is taken.
   */
  lemma PngNamesIsPngSubsequence(listing: seq<string>)
    ensures |PngNames(listing)| == |PngPositions(listing)|
    ensures forall k :: 0 <= k < |PngPositions(listing)| ==>
      PngPositions(listing)[k] < |listing| && PngNames(listing)[k] == listing[PngPositions(listing)[k]]
    ensures forall k, l :: 0 <= k < l < |PngPositions(listing)| ==>
      PngPositions(listing)[k] < PngPositions(listing)[l]
    ensures forall j :: 0 <= j < |listing| ==> (IsPng(listing[j]) <==> j in PngPositions(listing))
  {
    PngNamesAtPositions(listing);
    PngPositionsIncrease(listing);
    PngPositionsExact(listing);
  }

  /** The set of listing positions whose entries contain ".png". */
  ghost function PngIndexSet(listing: seq<string>): set<int>
  {
    set j | 0 <= j < |listing| && IsPng(listing[j])
  }

  /** Appending one entry adds its position to the set exactly when it contains ".png". */
  lemma PngIndexSetSnoc(init: seq<string>, x: string)
    ensures PngIndexSet(init + [x]) == PngIndexSet(init) + (if IsPng(x) then {|init|} else {})
  {
    var listing := init + [x];
    assert forall j :: 0 <= j < |init| ==> listing[j] == init[j];
    assert listing[|init|] == x;
  }

  /** The number of image names is the number of listing entries containing ".png". */
  lemma {:induction false} PngCount(listing: seq<string>)
    ensures |PngNames(listing)| == |PngIndexSet(listing)|
    decreases |listing|
  {
    if listing != [] {
      var last := |listing| - 1;
      var init := listing[..last];
      var x := listing[last];
      assert listing == init + [x];
      PngNamesAppend(init, [x]);
      assert [x][1..] == [];
      PngCount(init);
      PngIndexSetSnoc(init, x);
      assert last !in PngIndexSet(init);
    }
  }

  /** Position of the first occurrence of `c` in `s`. */
  function FirstIndex(s: string, c: char): (i: nat)
    requires c in s
    ensures i < |s| && s[i] == c && c !in s[..i]
  {
    if s[0] == c then 0
    else
      var j := FirstIndex(s[1..], c);
      assert s[..j + 1] == [s[0]] + s[1..][..j];
      j + 1
  }

  /** A position holding `c` with no `c` before it is the first occurrence. */
  lemma FirstIndexUnique(s: string, c: char, i: nat)
    requires i < |s| && s[i] == c && c !in s[..i]
    ensures FirstIndex(s, c) == i
  {
  }

  /** Python's `s.split(sep)` for a one-character separator: empty pieces are kept. */
  function Split(s: string, sep: char): (parts: seq<string>)
    ensures |parts| >= 1
    ensures forall k :: 0 <= k < |parts| ==> sep !in parts[k]
    ensures |parts| == multiset(s)[sep] + 1
    decreases |s|
  {
    if sep !in s then
      assert multiset(s)[sep] == 0;
      [s]
    else
      var i := FirstIndex(s, sep);
      assert s == s[..i] + [sep] + s[i + 1..];
      assert multiset(s) == multiset(s[..i]) + multiset{sep} + multiset(s[i + 1..]);
      [s[..i]] + Split(s[i + 1..], sep)
  }

  /** Python's `sep.join(parts)`: the pieces in order, one separator between neighbours. */
  function Join(parts: seq<string>, sep: char): (s: string)
    ensures |parts| >= 1 ==> parts[0] <= s
    ensures |parts| >= 2 ==> |parts[0]| < |s| && s[|parts[0]|] == sep
  {
    if |parts| == 0 then ""
    else if |parts| == 1 then parts[0]
    else parts[0] + [sep] + Join(parts[1..], sep)
  }

  /** A join of separator-free pieces holds one separator fewer than there are pieces. */
  lemma {:induction false} JoinSeparatorCount(parts: seq<string>, sep: char)
    requires |parts| >= 1
    requires forall k :: 0 <= k < |parts| ==> sep !in parts[k]
    ensures multiset(Join(parts, sep))[sep] == |parts| - 1
    decreases |parts|
  {
    assert sep !in parts[0];
    assert multiset(parts[0])[sep] == 0;
    if |parts| > 1 {
      var rest := Join(parts[1..], sep);
      JoinSeparatorCount(parts[1..], sep);
      assert Join(parts, sep) == parts[0] + [sep] + rest;
      assert multiset(parts[0] + [sep] + rest) == multiset(parts[0]) + multiset{sep} + multiset(rest);
    }
  }

  /** Joining the pieces of a split gives back the string. */
  lemma {:induction false} JoinSplit(s: string, sep: char)
    ensures Join(Split(s, sep), sep) == s
    decreases |s|
  {
    if sep in s {
      var i := FirstIndex(s, sep);
      var rest := Split(s[i + 1..], sep);
      assert Split(s, sep) == [s[..i]] + rest;
      assert ([s[..i]] + rest)[1..] == rest;
      JoinSplit(s[i + 1..], sep);
      assert s == s[..i] + [sep] + s[i + 1..];
    }
  }

  /** Splitting at a first separator that follows a separator-free piece yields that piece first. */
  lemma SplitAfterPiece(first: string, rest: string, sep: char)
    requires sep !in first
    ensures Split(first + [sep] + rest, sep) == [first] + Split(rest, sep)
  {
    var s := first + [sep] + rest;
    assert s[..|first|] == first;
    assert s[|first|] == sep;
    FirstIndexUnique(s, sep, |first|);
    assert s[|first| + 1..] == rest;
  }

  /** Splitting a join of separator-free pieces gives back the pieces. */
  lemma {:induction false} SplitJoin(parts: seq<string>, sep: char)
    requires |parts| >= 1
    requires forall k :: 0 <= k < |parts| ==> sep !in parts[k]
    ensures Split(Join(parts, sep), sep) == parts
    decreases |parts|
  {
    if |parts| > 1 {
      var rest := parts[1..];
      var joined := Join(rest, sep);
      assert Join(parts, sep) == parts[0] + [sep] + joined;
      SplitAfterPiece(parts[0], joined, sep);
      SplitJoin(rest, sep);
      assert parts == [parts[0]] + rest;
    }
  }

  const MaskPrefix: string := "segmentation_"

  /**
   * Line 100: the mask of an image is named "segmentation_" + the pieces after the first
   * "_", joined again by "_": that is "segmentation_" followed by everything after the
   * first "_" of the image name, or by nothing when the name has no "_" (then the mask
   * name has no extension either).
   */
  function MaskName(imageName: string): (maskName: string)
    ensures '_' in imageName ==>
      maskName == MaskPrefix + imageName[FirstIndex(imageName, '_') + 1..]
    ensures '_' !in imageName ==> maskName == MaskPrefix
  {
    var pieces := Split(imageName, '_');
    if '_' in imageName then
      var i := FirstIndex(imageName, '_');
      assert pieces[1..] == Split(imageName[i + 1..], '_');
      JoinSplit(imageName[i + 1..], '_');
      MaskPrefix + Join(pieces[1..], '_')
    else
      assert pieces == [imageName];
      MaskPrefix + Join(pieces[1..], '_')
  }

  /**
   * An image named `token + "_" + rest`, where `token` has no "_", has the mask
   * "segmentation_" + `rest`: the first token is dropped and everything after the
   * first "_" is kept, further underscores included.
   */
  lemma MaskNameDropsFirstToken(token: string, rest: string)
    requires '_' !in token
    ensures MaskName(token + ['_'] + rest) == MaskPrefix + rest
  {
    var name := token + ['_'] + rest;
    assert name[..|token|] == token;
    assert name[|token|] == '_';
    FirstIndexUnique(name, '_', |token|);
    assert name[|token| + 1..] == rest;
  }

  /**
   * A name `s` without "_", such as "img.png", pairs with exactly "segmentation_", while
   * `s_s` (such as "img.png_img.png") pairs with "segmentation_" + `s`.
   */
  lemma MaskNameWithoutUnderscore(imageName: string)
    requires '_' !in imageName
    ensures MaskName(imageName) == MaskPrefix
    ensures MaskName(imageName + "_" + imageName) == MaskPrefix + imageName
  {
    MaskNameDropsFirstToken(imageName, imageName);
  }

  /** Two images that agree after their first "_" share one mask: the first token is discarded. */
  lemma SameTailSameMask(token1: string, token2: string, rest: string)
    requires '_' !in token1 && '_' !in token2
    ensures MaskName(token1 + ['_'] + rest) == MaskName(token2 + ['_'] + rest)
  {
    MaskNameDropsFirstToken(token1, rest);
    MaskNameDropsFirstToken(token2, rest);
  }
}
