/** The list of accepted image formats and its membership test (models/file.go).
    Membership is a SUFFIX test, not equality. */
module FileTypes {
  import opened GoLib

  /** ExtSlice.Has: scans the list in order and answers true at the first
      element that is a suffix of `a`. */
  function Has(list: seq<string>, a: string): (r: bool)
    ensures r <==> exists k :: 0 <= k < |list| && HasSuffix(a, list[k])
    decreases |list|
  {
    if |list| == 0 then false
    else if HasSuffix(a, list[0]) then true
    else
      var r := Has(list[1..], a);
      assert forall k :: 1 <= k < |list| ==> list[k] == list[1..][k - 1];
      assert r ==> exists k :: 0 <= k < |list| && HasSuffix(a, list[k]) by {
        if r {
          var j :| 0 <= j < |list[1..]| && HasSuffix(a, list[1..][j]);
          assert list[j + 1] == list[1..][j];
        }
      }
      r
  }

  /** The formats the server accepts, in the order they are tried. */
  const SupportedTypes: seq<string> := ["jpg", "png", "gif", "webp", "jpeg", "svg"]

  /** An empty list accepts nothing. */
  lemma EmptyListAcceptsNothing(a: string)
    ensures !Has([], a)
  {
  }

  /** Has is closed under putting anything in front of an accepted string. */
  lemma HasSuffixClosed(list: seq<string>, x: string, a: string)
    requires Has(list, a)
    ensures Has(list, x + a)
  {
    var k :| 0 <= k < |list| && HasSuffix(a, list[k]);
    HasSuffixPrepend(x, a, list[k]);
  }

  /** For the supported list, acceptance is exactly "ends in one of the six
      names"; in particular every listed name is accepted. */
  lemma SupportedHasIff(a: string)
    ensures Has(SupportedTypes, a) <==>
      HasSuffix(a, "jpg") || HasSuffix(a, "png") || HasSuffix(a, "gif") ||
      HasSuffix(a, "webp") || HasSuffix(a, "jpeg") || HasSuffix(a, "svg")
  {
    assert SupportedTypes[0] == "jpg" && SupportedTypes[1] == "png";
    assert SupportedTypes[2] == "gif" && SupportedTypes[3] == "webp";
    assert SupportedTypes[4] == "jpeg" && SupportedTypes[5] == "svg";
  }

  lemma EachSupportedTypeAccepted(k: nat)
    requires k < |SupportedTypes|
    ensures Has(SupportedTypes, SupportedTypes[k])
  {
    assert HasSuffix(SupportedTypes[k], SupportedTypes[k]);
  }

  /** The empty format is rejected: every listed name is non-empty. */
  lemma SupportedRejectsEmpty()
    ensures !Has(SupportedTypes, "")
  {
    SupportedHasIff("");
  }

  /** Because the test is a suffix test, strings that are not formats at all
      are accepted as long as they end in a listed name. */
  lemma SupportedAcceptsSuffixes()
    ensures Has(SupportedTypes, "xpng") && Has(SupportedTypes, "apng")
    ensures Has(SupportedTypes, "image.jpeg") && Has(SupportedTypes, "notsvg")
  {
    assert SupportedTypes[1] == "png" && SupportedTypes[4] == "jpeg" && SupportedTypes[5] == "svg";
    assert "xpng"[1..] == "png" && "apng"[1..] == "png";
    assert "image.jpeg"[6..] == "jpeg" && "notsvg"[3..] == "svg";
  }

  /** A name that ends in none of the six is refused. */
  lemma SupportedRejectsBmp()
    ensures !Has(SupportedTypes, "bmp")
  {
    SupportedHasIff("bmp");
    assert "bmp"[0..] != "jpeg" && "bmp"[0..] != "webp";
  }

  /** The suffix test is exact: a trailing space is enough to refuse "png". */
  lemma SupportedRejectsTrailingSpace()
    ensures !Has(SupportedTypes, "png ")
  {
    SupportedHasIff("png ");
    assert "png "[3] == ' ';
  }
}
