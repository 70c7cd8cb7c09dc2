/** The scan of the icon folder: every listed file whose name ends in `.svg`,
    in any letter case, becomes one manifest record. The directory listing
    is an input here. */
module Scanner {
  import opened Text
  import opened Seqs

  /** One manifest record: `full_name`, `className` and `filePath`. */
  datatype Icon = Icon(fullName: string, className: string, filePath: string)

  /** `filename.lower().endswith('.svg')`. */
  predicate IsSvgName(filename: string)
  {
    EndsWith(Lower(filename), ".svg")
  }

  /** The root that Python's `os.path.splitext` returns, with `/` as the
      separator: the text before the last dot, unless that dot lies in the
      run of dots that begins the last path component (`.svg`, `x/..svg`),
      in which case the whole path is the root. */
  function SplitExtRoot(p: string): string
  {
    var sepIndex := RFind(p, '/');
    var dotIndex := RFind(p, '.');
    if sepIndex < dotIndex && !AllDots(p[sepIndex + 1..dotIndex]) then p[..dotIndex] else p
  }

  /** The part of an `.svg` name before its extension, within the last path
      component, holds a character other than a dot. */
  predicate HasStem(filename: string)
  {
    exists k | RFind(filename, '/') < k < |filename| - 4 :: filename[k] != '.'
  }

  /** The record built for one qualifying file name. */
  function MakeIcon(folder: string, filename: string): Icon
  {
    var fullName := SplitExtRoot(filename);
    Icon(fullName, fullName, folder + "/" + filename)
  }

  /** The records for a sequence of file names, one each, in order. */
  function IconsOf(folder: string, names: seq<string>): seq<Icon>
  {
    seq(|names|, k requires 0 <= k < |names| => MakeIcon(folder, names[k]))
  }

  /** The manifest the scan builds from a directory listing. */
  function ScanSpec(folder: string, listing: seq<string>): seq<Icon>
  {
    IconsOf(folder, Filter(listing, IsSvgName))
  }

  /** The scan loop: one record appended per `.svg` entry of the listing. */
  method ScanIcons(folder: string, listing: seq<string>) returns (icons: seq<Icon>)
    ensures icons == ScanSpec(folder, listing)
  {
    icons := [];
    for i := 0 to |listing|
      invariant icons == ScanSpec(folder, listing[..i])
    {
      var filename := listing[i];
      assert listing[..i + 1][..i] == listing[..i];
      if IsSvgName(filename) {
        var fullName := SplitExtRoot(filename);
        icons := icons + [Icon(fullName, fullName, folder + "/" + filename)];
      }
    }
    assert listing[..|listing|] == listing;
  }

  /** The scan keeps one record per listed `.svg` name and drops every other
      name: record `k` is built from the name at position `idx[k]`, the
      positions increase, and they are exactly the positions of `.svg` names. */
  lemma ScanRecords(folder: string, listing: seq<string>)
    ensures var icons, idx := ScanSpec(folder, listing), KeptIndices(listing, IsSvgName);
      && |icons| == |idx|
      && (forall k :: 0 <= k < |idx| ==>
            0 <= idx[k] < |listing| && icons[k] == MakeIcon(folder, listing[idx[k]]))
      && (forall a, b :: 0 <= a < b < |idx| ==> idx[a] < idx[b])
      && (forall j :: 0 <= j < |listing| ==> (j in idx <==> IsSvgName(listing[j])))
  {
    FilterIndices(listing, IsSvgName);
  }

  /** A listing without `.svg` names gives an empty manifest, and only then. */
  lemma ScanEmptyIff(folder: string, listing: seq<string>)
    ensures ScanSpec(folder, listing) == [] <==>
      forall j :: 0 <= j < |listing| ==> !IsSvgName(listing[j])
  {
    FilterEmptyIff(listing, IsSvgName);
  }

  /** Lower-casing yields a dot only from a dot, and a slash only from a
      slash. */
  lemma LowerCharIsDot(c: char)
    ensures LowerChar(c) == '.' <==> c == '.'
    ensures LowerChar(c) == '/' <==> c == '/'
  {
  }

  /** A name ending in `.svg` in any case has a dot four characters from
      its end, and neither a dot nor a slash after it. */
  lemma {:induction false} SvgSuffix(filename: string)
    requires IsSvgName(filename)
    ensures |filename| >= 4 && filename[|filename| - 4] == '.'
    ensures forall k :: |filename| - 4 < k < |filename| ==> filename[k] != '.'
    ensures forall k :: |filename| - 4 <= k < |filename| ==> filename[k] != '/'
  {
    var n := |filename|;
    var low := Lower(filename);
    assert low[n - 4..] == ".svg";
    assert low[n - 4] == '.';
    LowerCharIsDot(filename[n - 4]);
    forall k | n - 4 < k < n
      ensures filename[k] != '.' && filename[k] != '/'
    {
      assert low[k] == low[n - 4..][k - (n - 4)];
      LowerCharIsDot(filename[k]);
    }
  }

  /** In a name ending in `.svg` in any case, the last dot is the one of the
      extension and the last slash comes before it. */
  lemma {:induction false} SvgNameIndices(filename: string)
    requires IsSvgName(filename)
    ensures RFind(filename, '.') == |filename| - 4
    ensures RFind(filename, '/') < |filename| - 4
  {
    SvgSuffix(filename);
    var n := |filename|;
    RFindBelow(filename, '.', n - 3);
    RFindBelow(filename, '/', n - 4);
    assert RFind(filename, '.') >= n - 4;
  }

  /** For a name ending in `.svg` in any case, `splitext` cuts at the dot of
      that extension, so the root is the name without its last four
      characters, except when no character other than a dot precedes the
      extension, when the root is the whole name. */
  lemma {:induction false} SvgNameRoot(filename: string)
    requires IsSvgName(filename)
    ensures SplitExtRoot(filename) == if HasStem(filename) then filename[..|filename| - 4] else filename
  {
    SvgNameIndices(filename);
    var sepIndex, dotIndex := RFind(filename, '/'), RFind(filename, '.');
    var between := filename[sepIndex + 1..dotIndex];
    if HasStem(filename) {
      var k :| sepIndex < k < dotIndex && filename[k] != '.';
      assert between[k - sepIndex - 1] == filename[k];
      assert !AllDots(between);
    } else {
      forall i | 0 <= i < |between| ensures between[i] == '.' {
        assert between[i] == filename[sepIndex + 1 + i];
      }
      assert AllDots(between);
    }
  }

  /** The fields of a record: `full_name` and `className` are the same root,
      the name without its `.svg` extension (the whole name when nothing but
      dots precedes the extension), and `filePath` joins the folder and the
      original file name with `/`. */
  lemma {:induction false} IconFields(folder: string, filename: string)
    requires IsSvgName(filename)
    ensures var icon := MakeIcon(folder, filename);
      && icon.fullName == icon.className
      && icon.filePath == folder + "/" + filename
      && icon.className == if HasStem(filename) then filename[..|filename| - 4] else filename
  {
    SvgNameRoot(filename);
  }
}
