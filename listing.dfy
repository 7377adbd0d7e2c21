/** Selecting the images from a directory listing and naming their captions. */
module Listing {

  const PngSuffix: string := ".png"

  /** Python's `str.endswith`: a case-sensitive suffix test. */
  predicate EndsWith(s: string, suffix: string) {
    |suffix| <= |s| && s[|s| - |suffix|..] == suffix
  }

  predicate IsPng(name: string) {
    EndsWith(name, PngSuffix)
  }

  predicate AllPng(files: seq<string>) {
    forall k :: 0 <= k < |files| ==> IsPng(files[k])
  }

  /** The list comprehension over `os.listdir`: the names ending in `.png`, in
      listing order. */
  function PngFiles(listing: seq<string>): (files: seq<string>)
    ensures AllPng(files)
    ensures |files| <= |listing|
    ensures forall f :: f in files <==> f in listing && IsPng(f)
  {
    if listing == [] then []
    else (if IsPng(listing[0]) then [listing[0]] else []) + PngFiles(listing[1..])
  }

  /** Filtering a concatenation filters each part: the kept names stay in the
      order of the listing. */
  lemma {:induction false} PngFilesAppend(a: seq<string>, b: seq<string>)
    ensures PngFiles(a + b) == PngFiles(a) + PngFiles(b)
  {
    if a == [] {
      assert a + b == b;
    } else {
      assert (a + b)[0] == a[0];
      assert (a + b)[1..] == a[1..] + b;
      PngFilesAppend(a[1..], b);
    }
  }

  /** A listing of PNG names is kept whole, so filtering twice changes nothing. */
  lemma {:induction false} PngFilesKeepsPng(listing: seq<string>)
    requires AllPng(listing)
    ensures PngFiles(listing) == listing
  {
    if listing != [] {
      PngFilesKeepsPng(listing[1..]);
    }
  }

  lemma PngFilesIdempotent(listing: seq<string>)
    ensures PngFiles(PngFiles(listing)) == PngFiles(listing)
  {
    PngFilesKeepsPng(PngFiles(listing));
  }

  /** `Path(name).stem` for a PNG name: the name without its `.png` suffix, except
      that a name that is only ".png" counts as a hidden file with no suffix. */
  function Stem(name: string): (stem: string)
    requires IsPng(name)
    ensures |name| > |PngSuffix| ==> stem + PngSuffix == name
    ensures |name| == |PngSuffix| ==> stem == PngSuffix
  {
    if |name| > |PngSuffix| then name[..|name| - |PngSuffix|] else name
  }

  /** The suffix test is case sensitive, and the stem drops only the suffix. */
  lemma SuffixExamples()
    ensures PngFiles(["A.PNG", "a.png"]) == ["a.png"]
    ensures Stem("img10.png") == "img10"
  {
    var listing := ["A.PNG", "a.png"];
    assert !IsPng(listing[0]) by { assert listing[0][1..] != PngSuffix; }
    assert IsPng(listing[1]);
    assert listing[1..] == ["a.png"] && listing[1..][1..] == [];
  }
}
