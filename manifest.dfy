/**
 * The icon-catalog manifest (`Contents.json`) that `main` builds: for each
 * nominal size and each scale, one entry for the light icon (no appearance
 * condition) followed by one entry for the dark icon (shown under the dark
 * luminosity appearance), wrapped with the catalog's `info` record.
 */
module Manifest {
  import opened Wrappers
  import opened Colors

  /** An appearance condition of an entry. */
  datatype Appearance = Appearance(appearance: string, value: string)

  datatype ImageEntry = ImageEntry(
    filename: string,
    idiom: string,
    scale: string,
    size: string,
    appearances: Option<seq<Appearance>>)

  datatype Info = Info(author: string, version: int)

  datatype Contents = Contents(images: seq<ImageEntry>, info: Info)

  const LightFile: string := "AppIcon-Light.png"
  const DarkFile: string := "AppIcon-Dark.png"
  const Idiom: string := "mac"
  const DarkLuminosity: Appearance := Appearance("luminosity", "dark")
  const CatalogInfo: Info := Info("xcode", 1)

  const Sizes: seq<string> := ["16x16", "32x32", "128x128", "256x256", "512x512"]
  const Scales: seq<string> := ["1x", "2x"]

  /** An icon file that `main` renders and saves, with the mode it is rendered in. */
  datatype IconFile = IconFile(filename: string, darkMode: bool)

  /** The two icons `main` writes, in the order it writes them. */
  const WrittenIcons: seq<IconFile> := [IconFile(DarkFile, true), IconFile(LightFile, false)]

  function LightEntry(size: string, scale: string): ImageEntry
  {
    ImageEntry(LightFile, Idiom, scale, size, None)
  }

  function DarkEntry(size: string, scale: string): ImageEntry
  {
    ImageEntry(DarkFile, Idiom, scale, size, Some([DarkLuminosity]))
  }

  /** The entries appended for one size: a light, dark pair per scale, in order. */
  function Row(size: string, scales: seq<string>): (r: seq<ImageEntry>)
    ensures |r| == 2 * |scales|
  {
    if scales == [] then []
    else Row(size, scales[..|scales| - 1]) + [LightEntry(size, scales[|scales| - 1]), DarkEntry(size, scales[|scales| - 1])]
  }

  /** The entries appended for all sizes, size by size. */
  function Images(sizes: seq<string>, scales: seq<string>): (r: seq<ImageEntry>)
    ensures |r| == 2 * |sizes| * |scales|
  {
    if sizes == [] then []
    else Images(sizes[..|sizes| - 1], scales) + Row(sizes[|sizes| - 1], scales)
  }

  /** No element of `s` occurs twice. */
  ghost predicate Distinct<T>(s: seq<T>)
  {
    forall a, b :: 0 <= a < b < |s| ==> s[a] != s[b]
  }

  /** The set of files the entries refer to. */
  function Filenames(images: seq<ImageEntry>): set<string>
  {
    set e | e in images :: e.filename
  }

  /**
   * The nested loop of `main` that appends the entries, followed by the
   * wrapping with the `info` record.
   */
  method BuildContents() returns (contents: Contents)
    ensures contents.images == Images(Sizes, Scales)
    ensures |contents.images| == |Sizes| * |Scales| * 2 == 20
    ensures contents.info == Info("xcode", 1)
  {
    var images: seq<ImageEntry> := [];
    for i := 0 to |Sizes|
      invariant images == Images(Sizes[..i], Scales)
    {
      var size := Sizes[i];
      for j := 0 to |Scales|
        invariant images == Images(Sizes[..i], Scales) + Row(size, Scales[..j])
      {
        var scale := Scales[j];
        images := images + [LightEntry(size, scale)];
        images := images + [DarkEntry(size, scale)];
        assert Scales[..j + 1][..j] == Scales[..j];
      }
      assert Scales[..|Scales|] == Scales;
      assert Sizes[..i + 1][..i] == Sizes[..i];
    }
    assert Sizes[..|Sizes|] == Sizes;
    contents := Contents(images, CatalogInfo);
  }

  // ---------------------------------------------------------------------
  // Ordering: entry 2 * (i * |scales| + j) is the light entry of size i and
  // scale j, and the dark entry of the same pair comes right after it.

  lemma {:induction false} RowAt(size: string, scales: seq<string>, j: int)
    requires 0 <= j < |scales|
    ensures Row(size, scales)[2 * j] == LightEntry(size, scales[j])
    ensures Row(size, scales)[2 * j + 1] == DarkEntry(size, scales[j])
  {
    var n := |scales| - 1;
    if j < n {
      RowAt(size, scales[..n], j);
    }
  }

  lemma {:induction false} ImagesAt(sizes: seq<string>, scales: seq<string>, i: int, j: int)
    requires 0 <= i < |sizes| && 0 <= j < |scales|
    ensures 2 * (i * |scales| + j) + 1 < |Images(sizes, scales)|
    ensures Images(sizes, scales)[2 * (i * |scales| + j)] == LightEntry(sizes[i], scales[j])
    ensures Images(sizes, scales)[2 * (i * |scales| + j) + 1] == DarkEntry(sizes[i], scales[j])
  {
    var n := |sizes| - 1;
    var m := |scales|;
    var prefix := Images(sizes[..n], scales);
    assert Images(sizes, scales) == prefix + Row(sizes[n], scales);
    if i < n {
      ImagesAt(sizes[..n], scales, i, j);
      assert sizes[..n][i] == sizes[i];
    } else {
      RowAt(sizes[n], scales, j);
      LastRowOffset(n, m, j);
    }
  }

  /** Index arithmetic for the last size: its pairs start after the 2 * n * m earlier entries. */
  lemma LastRowOffset(n: nat, m: nat, j: nat)
    requires j < m
    ensures 2 * (n * m + j) == 2 * n * m + 2 * j
    ensures 2 * (n * m + j) + 1 < 2 * (n + 1) * m
  {
    assert 2 * (n + 1) * m == 2 * n * m + 2 * m;
  }

  // ---------------------------------------------------------------------
  // Contents: an entry is in the manifest exactly when it is the light or the
  // dark entry of a listed size and a listed scale.

  lemma {:induction false} RowMember(size: string, scales: seq<string>, e: ImageEntry)
    ensures e in Row(size, scales) <==>
      e.size == size && e.scale in scales &&
      (e == LightEntry(e.size, e.scale) || e == DarkEntry(e.size, e.scale))
  {
    if scales != [] {
      var n := |scales| - 1;
      RowMember(size, scales[..n], e);
      assert scales == scales[..n] + [scales[n]];
    }
  }

  lemma {:induction false} ImagesMember(sizes: seq<string>, scales: seq<string>, e: ImageEntry)
    ensures e in Images(sizes, scales) <==>
      e.size in sizes && e.scale in scales &&
      (e == LightEntry(e.size, e.scale) || e == DarkEntry(e.size, e.scale))
  {
    if sizes != [] {
      var n := |sizes| - 1;
      ImagesMember(sizes[..n], scales, e);
      RowMember(sizes[n], scales, e);
      assert sizes == sizes[..n] + [sizes[n]];
    }
  }

  /**
   * Every entry has idiom "mac"; an entry carries no appearance condition
   * exactly when it names the light file, and carries the dark luminosity
   * condition exactly when it names the dark file.
   */
  lemma EntriesWellFormed(sizes: seq<string>, scales: seq<string>, e: ImageEntry)
    requires e in Images(sizes, scales)
    ensures e.idiom == Idiom
    ensures e.filename == LightFile || e.filename == DarkFile
    ensures e.appearances == None <==> e.filename == LightFile
    ensures e.appearances == Some([DarkLuminosity]) <==> e.filename == DarkFile
  {
    ImagesMember(sizes, scales, e);
  }

  /** A non-empty manifest refers to both files and to no other. */
  lemma ImagesFilenames(sizes: seq<string>, scales: seq<string>)
    requires |sizes| > 0 && |scales| > 0
    ensures Filenames(Images(sizes, scales)) == {DarkFile, LightFile}
  {
    var images := Images(sizes, scales);
    var names := Filenames(images);
    ImagesAt(sizes, scales, 0, 0);
    assert 2 * (0 * |scales| + 0) == 0;
    assert images[0].filename == LightFile && images[1].filename == DarkFile;
    assert images[0] in images && images[1] in images;
    forall name | name in names
      ensures name == DarkFile || name == LightFile
    {
      var e :| e in images && e.filename == name;
      EntriesWellFormed(sizes, scales, e);
    }
  }

  // ---------------------------------------------------------------------
  // Uniqueness: with distinct sizes and scales every (size, scale) pair has
  // exactly one light and exactly one dark entry.

  lemma {:induction false} DistinctConcat<T>(a: seq<T>, b: seq<T>)
    requires Distinct(a) && Distinct(b)
    requires forall x :: x in a ==> x !in b
    ensures Distinct(a + b)
  {
    forall p, q | 0 <= p < q < |a + b|
      ensures (a + b)[p] != (a + b)[q]
    {
      if q >= |a| && p < |a| {
        assert (a + b)[p] in a && (a + b)[q] in b;
      }
    }
  }

  lemma {:induction false} DistinctPrefix<T>(s: seq<T>, n: nat)
    requires Distinct(s) && n <= |s|
    ensures Distinct(s[..n])
    ensures forall k :: n <= k < |s| ==> s[k] !in s[..n]
  {
  }

  lemma {:induction false} RowDistinct(size: string, scales: seq<string>)
    requires Distinct(scales)
    ensures Distinct(Row(size, scales))
  {
    if scales != [] {
      var n := |scales| - 1;
      DistinctPrefix(scales, n);
      RowDistinct(size, scales[..n]);
      var pair := [LightEntry(size, scales[n]), DarkEntry(size, scales[n])];
      forall e | e in Row(size, scales[..n])
        ensures e !in pair
      {
        RowMember(size, scales[..n], e);
      }
      DistinctConcat(Row(size, scales[..n]), pair);
    }
  }

  lemma {:induction false} ImagesDistinct(sizes: seq<string>, scales: seq<string>)
    requires Distinct(sizes) && Distinct(scales)
    ensures Distinct(Images(sizes, scales))
  {
    if sizes != [] {
      var n := |sizes| - 1;
      DistinctPrefix(sizes, n);
      ImagesDistinct(sizes[..n], scales);
      RowDistinct(sizes[n], scales);
      forall e | e in Images(sizes[..n], scales)
        ensures e !in Row(sizes[n], scales)
      {
        ImagesMember(sizes[..n], scales, e);
        RowMember(sizes[n], scales, e);
      }
      DistinctConcat(Images(sizes[..n], scales), Row(sizes[n], scales));
    }
  }

  lemma {:induction false} DistinctCount<T>(s: seq<T>, x: T)
    requires Distinct(s)
    ensures multiset(s)[x] == if x in s then 1 else 0
  {
    if s != [] {
      DistinctCount(s[1..], x);
      assert s == [s[0]] + s[1..];
      assert s[0] !in s[1..];
    }
  }

  lemma EachPairOnce(sizes: seq<string>, scales: seq<string>, size: string, scale: string)
    requires Distinct(sizes) && Distinct(scales)
    requires size in sizes && scale in scales
    ensures multiset(Images(sizes, scales))[LightEntry(size, scale)] == 1
    ensures multiset(Images(sizes, scales))[DarkEntry(size, scale)] == 1
  {
    ImagesDistinct(sizes, scales);
    ImagesMember(sizes, scales, LightEntry(size, scale));
    ImagesMember(sizes, scales, DarkEntry(size, scale));
    DistinctCount(Images(sizes, scales), LightEntry(size, scale));
    DistinctCount(Images(sizes, scales), DarkEntry(size, scale));
  }

  // ---------------------------------------------------------------------
  // The manifest that `main` writes, against the files it writes.

  /** Neither fixed table lists a value twice. */
  lemma TablesDistinct()
    ensures Distinct(Sizes) && Distinct(Scales)
  {
    assert Sizes[0][0] == '1' && Sizes[1][0] == '3' && Sizes[2][1] == '2' && Sizes[3][0] == '2' && Sizes[4][0] == '5';
    assert Scales[0][0] == '1' && Scales[1][0] == '2';
  }

  /**
   * The fixed tables are free of repeats, so each of the 10 (size, scale)
   * pairs has exactly one light and exactly one dark entry.
   */
  lemma ManifestEachPairOnce(size: string, scale: string)
    requires size in Sizes && scale in Scales
    ensures multiset(Images(Sizes, Scales))[LightEntry(size, scale)] == 1
    ensures multiset(Images(Sizes, Scales))[DarkEntry(size, scale)] == 1
  {
    TablesDistinct();
    EachPairOnce(Sizes, Scales, size, scale);
  }

  /** The manifest refers to exactly the files that are written. */
  lemma ManifestMatchesWrittenIcons()
    ensures Filenames(Images(Sizes, Scales)) == set f | f in WrittenIcons :: f.filename
  {
    ImagesFilenames(Sizes, Scales);
    assert WrittenIcons[0].filename == DarkFile && WrittenIcons[1].filename == LightFile;
    assert WrittenIcons[0] in WrittenIcons && WrittenIcons[1] in WrittenIcons;
  }

  /**
   * An entry is shown under the dark appearance exactly when the file it
   * names was rendered in dark mode, that is, with the black background.
   */
  lemma DarkEntriesShowDarkIcon(sizes: seq<string>, scales: seq<string>, e: ImageEntry, f: IconFile)
    requires e in Images(sizes, scales) && f in WrittenIcons && e.filename == f.filename
    ensures e.appearances == Some([DarkLuminosity]) <==> f.darkMode
    ensures e.appearances == Some([DarkLuminosity]) <==> SelectPalette(f.darkMode).background == Black
  {
    EntriesWellFormed(sizes, scales, e);
  }
}
