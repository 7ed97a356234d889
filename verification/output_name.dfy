/**
 * Output-filename resolution of compress_video.c: split the source path at its
 * last '.', then try `<stem>_compressed.<ext>`, `<stem>_compressed1.<ext>`,
 * `<stem>_compressed2.<ext>`, ... until a name is found that does not exist.
 * The filesystem's existence test is membership in the finite set `existing`.
 */
module OutputName {
  import opened Results
  import opened Decimal

  /** `strrchr`: the index of the last occurrence of `c` in `s`, if any. */
  function LastIndexOf(s: string, c: char): (r: Option<nat>)
    ensures r.None? <==> c !in s
    ensures r.Some? ==> r.value < |s| && s[r.value] == c && c !in s[r.value + 1..]
  {
    if s == [] then None
    else if s[|s| - 1] == c then Some(|s| - 1)
    else
      assert s == s[..|s| - 1] + [s[|s| - 1]];
      var r := LastIndexOf(s[..|s| - 1], c);
      assert r.Some? ==> s[r.value + 1..] == s[..|s| - 1][r.value + 1..] + [s[|s| - 1]];
      r
  }

  /**
   * The stem (everything before the last '.') and the extension (everything
   * after it). Path separators play no part: the last '.' may lie in a
   * directory component.
   */
  function SplitExtension(path: string): (r: Option<(string, string)>)
    ensures r.None? <==> '.' !in path
    ensures r.Some? ==> path == r.value.0 + "." + r.value.1 && '.' !in r.value.1
  {
    match LastIndexOf(path, '.')
    case None => None
    case Some(k) =>
      assert path == path[..k] + "." + path[k + 1..];
      Some((path[..k], path[k + 1..]))
  }

  /** The split is unique: any stem joined by '.' to a dot-free extension splits back into the two. */
  lemma SplitAtLastDot(stem: string, ext: string)
    requires '.' !in ext
    ensures SplitExtension(stem + "." + ext) == Some((stem, ext))
  {
    var path := stem + "." + ext;
    assert path[|stem|] == '.';
    var k := LastIndexOf(path, '.').value;
    assert k == |stem|;
    assert path[..k] == stem;
    assert path[k + 1..] == ext;
  }

  /**
   * Candidate number `n`: `n == 0` is the plain `<stem>_compressed.<ext>`,
   * `n >= 1` is `<stem>_compressed<n>.<ext>`.
   */
  function Candidate(stem: string, ext: string, n: nat): (r: string)
    ensures n == 0 <==> r == stem + "_compressed." + ext
  {
    stem + "_compressed" + (if n == 0 then "" else DecimalString(n)) + "." + ext
  }

  /** Every candidate keeps the source's extension: splitting it again gives back `ext`. */
  lemma CandidateKeepsExtension(stem: string, ext: string, n: nat)
    requires '.' !in ext
    ensures SplitExtension(Candidate(stem, ext, n)) == Some((stem + "_compressed" + (if n == 0 then "" else DecimalString(n)), ext))
  {
    var number := if n == 0 then "" else DecimalString(n);
    SplitAtLastDot(stem + "_compressed" + number, ext);
    assert Candidate(stem, ext, n) == (stem + "_compressed" + number) + "." + ext;
  }

  /** Distinct numbers give distinct candidates. */
  lemma CandidateInjective(stem: string, ext: string, m: nat, n: nat)
    requires Candidate(stem, ext, m) == Candidate(stem, ext, n)
    ensures m == n
  {
    var prefix := stem + "_compressed";
    var sm := if m == 0 then "" else DecimalString(m);
    var sn := if n == 0 then "" else DecimalString(n);
    var c := Candidate(stem, ext, m);
    assert c == prefix + sm + "." + ext;
    assert c == prefix + sn + "." + ext;
    assert |sm| == |sn|;
    assert sm == c[|prefix|..|prefix| + |sm|];
    assert sn == c[|prefix|..|prefix| + |sn|];
    if m != 0 && n != 0 {
      DecimalStringInjective(m, n);
    }
  }

  /** The first `n` candidates, as a set. */
  ghost function Tried(stem: string, ext: string, n: nat): set<string> {
    set j | 0 <= j < n :: Candidate(stem, ext, j)
  }

  lemma {:induction false} TriedCardinality(stem: string, ext: string, n: nat)
    ensures |Tried(stem, ext, n)| == n
  {
    if n > 0 {
      var earlier, last := Tried(stem, ext, n - 1), Candidate(stem, ext, n - 1);
      TriedCardinality(stem, ext, n - 1);
      forall x | x in Tried(stem, ext, n)
        ensures x in earlier + {last}
      {
        var j :| 0 <= j < n && x == Candidate(stem, ext, j);
        if j < n - 1 {
          assert x in earlier;
        }
      }
      assert Tried(stem, ext, n) == earlier + {last};
      if last in earlier {
        var j :| 0 <= j < n - 1 && Candidate(stem, ext, j) == last;
        CandidateInjective(stem, ext, j, n - 1);
      }
    }
  }

  lemma {:induction false} SubsetCardinality<T>(a: set<T>, b: set<T>)
    requires a <= b
    ensures |a| <= |b|
  {
    if a != {} {
      var x :| x in a;
      SubsetCardinality(a - {x}, b - {x});
    }
  }

  /** If the first `n` candidates all exist, there are at least `n` existing paths. */
  lemma ExistingBoundsTried(stem: string, ext: string, existing: set<string>, n: nat)
    requires forall j :: 0 <= j < n ==> Candidate(stem, ext, j) in existing
    ensures n <= |existing|
  {
    TriedCardinality(stem, ext, n);
    SubsetCardinality(Tried(stem, ext, n), existing);
  }

  /** Candidate `k` is absent and every earlier one exists: the loop stops at `k`. */
  ghost predicate FirstAbsent(stem: string, ext: string, existing: set<string>, k: nat) {
    && Candidate(stem, ext, k) !in existing
    && forall j :: 0 <= j < k ==> Candidate(stem, ext, j) in existing
  }

  lemma FirstAbsentUnique(stem: string, ext: string, existing: set<string>, k: nat, l: nat)
    requires FirstAbsent(stem, ext, existing, k) && FirstAbsent(stem, ext, existing, l)
    ensures k == l
  {
  }

  /**
   * The number of the first absent candidate, searching from `from` on,
   * where every candidate before `from` is known to exist.
   */
  function FirstAbsentFrom(stem: string, ext: string, existing: set<string>, from: nat): (k: nat)
    requires forall j :: 0 <= j < from ==> Candidate(stem, ext, j) in existing
    ensures from <= k <= |existing|
    ensures FirstAbsent(stem, ext, existing, k)
    decreases |existing| - from
  {
    ExistingBoundsTried(stem, ext, existing, from);
    if Candidate(stem, ext, from) !in existing then from
    else
      ExistingBoundsTried(stem, ext, existing, from + 1);
      FirstAbsentFrom(stem, ext, existing, from + 1)
  }

  /**
   * The name the tool writes to: None when the path has no '.', otherwise the
   * first candidate not in `existing`, found among the first |existing| + 1.
   */
  function OutputPathFor(path: string, existing: set<string>): (r: Option<string>)
    ensures r.None? <==> '.' !in path
    ensures r.Some? ==> r.value !in existing
    ensures r.Some? ==>
      var (stem, ext) := SplitExtension(path).value;
      exists k: nat :: k <= |existing| && r.value == Candidate(stem, ext, k) && FirstAbsent(stem, ext, existing, k)
  {
    match SplitExtension(path)
    case None => None
    case Some((stem, ext)) => Some(Candidate(stem, ext, FirstAbsentFrom(stem, ext, existing, 0)))
  }

  /**
   * `generate_output_filename`: cut the path at its last '.', then probe
   * candidate names one after another while the current one exists.
   */
  method GenerateOutputFilename(path: string, existing: set<string>) returns (r: Option<string>)
    ensures r == OutputPathFor(path, existing)
  {
    var dot := LastIndexOf(path, '.');
    if dot.None? {
      return None;
    }
    var stem, ext := path[..dot.value], path[dot.value + 1..];
    assert SplitExtension(path) == Some((stem, ext));
    var outputFile := stem + "_compressed." + ext;
    assert outputFile == Candidate(stem, ext, 0);
    var i := 1;
    while outputFile in existing
      invariant 1 <= i <= |existing| + 1
      invariant outputFile == Candidate(stem, ext, i - 1)
      invariant forall j :: 0 <= j < i - 1 ==> Candidate(stem, ext, j) in existing
      decreases |existing| + 1 - i
    {
      ExistingBoundsTried(stem, ext, existing, i);
      outputFile := stem + "_compressed" + DecimalString(i) + "." + ext;
      i := i + 1;
    }
    FirstAbsentUnique(stem, ext, existing, i - 1, FirstAbsentFrom(stem, ext, existing, 0));
    return Some(outputFile);
  }

  lemma ClipSplit()
    ensures SplitExtension("clip.mp4") == Some(("clip", "mp4"))
  {
    assert "clip.mp4" == "clip" + "." + "mp4";
    SplitAtLastDot("clip", "mp4");
  }

  lemma NoCollision()
    ensures OutputPathFor("clip.mp4", {}) == Some("clip_compressed.mp4")
  {
    ClipSplit();
    var k := FirstAbsentFrom("clip", "mp4", {}, 0);
    FirstAbsentUnique("clip", "mp4", {}, 0, k);
    assert Candidate("clip", "mp4", 0) == "clip_compressed.mp4";
  }

  lemma SecondNumberedCandidateIsFirstAbsent()
    ensures FirstAbsent("clip", "mp4", {"clip_compressed.mp4", "clip_compressed1.mp4"}, 2)
  {
    var existing := {"clip_compressed.mp4", "clip_compressed1.mp4"};
    assert Candidate("clip", "mp4", 0) == "clip_compressed.mp4";
    assert Candidate("clip", "mp4", 1) == "clip_compressed1.mp4" by {
      assert DecimalString(1) == "1";
    }
    assert Candidate("clip", "mp4", 2) == "clip_compressed2.mp4" by {
      assert DecimalString(2) == "2";
    }
    assert "clip_compressed2.mp4" !in existing by {
      assert "clip_compressed2.mp4"[15] == '2';
    }
  }

  lemma TwoCollisions()
    ensures OutputPathFor("clip.mp4", {"clip_compressed.mp4", "clip_compressed1.mp4"})
         == Some("clip_compressed2.mp4")
  {
    var existing := {"clip_compressed.mp4", "clip_compressed1.mp4"};
    ClipSplit();
    SecondNumberedCandidateIsFirstAbsent();
    var k := FirstAbsentFrom("clip", "mp4", existing, 0);
    FirstAbsentUnique("clip", "mp4", existing, 2, k);
    assert Candidate("clip", "mp4", 2) == "clip_compressed2.mp4" by {
      assert DecimalString(2) == "2";
    }
  }

  /** A '.' in a directory name is taken as the extension separator when the file name has none. */
  lemma DirectoryDotSplit()
    ensures SplitExtension("media.v2\\clip") == Some(("media", "v2\\clip"))
  {
    assert "media.v2\\clip" == "media" + "." + "v2\\clip";
    SplitAtLastDot("media", "v2\\clip");
  }

  /** The output name is then built from the directory's stem. */
  lemma DotInDirectory()
    ensures OutputPathFor("media.v2\\clip", {}) == Some("media_compressed.v2\\clip")
  {
    DirectoryDotSplit();
    var k := FirstAbsentFrom("media", "v2\\clip", {}, 0);
    FirstAbsentUnique("media", "v2\\clip", {}, 0, k);
    assert Candidate("media", "v2\\clip", 0) == "media_compressed.v2\\clip";
  }
}
