/**
 * The photo database (photodb.py): the extension allow-list, the expansion
 * of the given paths into image files with hidden names skipped, the images
 * table as a map from file path to row, and the incremental update that
 * re-reads a file only when its stored size or modification time is stale.
 *
 * The file system and the metadata library are inputs: a tree of directory
 * entries for each given path, a map from file path to its size and
 * modification time, and a map from file path to the metadata keys the
 * library finds in the file.
 */
module PhotoDb {
  import opened Wrappers
  import opened Conversions
  import opened Schema
  import opened SdbFormat
  import ImageMetadata

  /** IMAGE_EXTENSIONS: the lower-case extensions of the files treated as images. */
  const ImageExtensions: seq<string> := ["jpg", "jpeg", "png", "tif", "bmp", "gif", "xpm", "nef", "cr2", "arw"]

  // ---------------------------------------------------------------------
  // isImage
  // ---------------------------------------------------------------------

  /** Membership in a list of strings, tested one element at a time. */
  predicate Listed(x: string, xs: seq<string>)
  {
    xs != [] && (xs[0] == x || Listed(x, xs[1..]))
  }

  lemma {:induction false} ListedIsIn(x: string, xs: seq<string>)
    ensures Listed(x, xs) <==> x in xs
  {
    if xs != [] {
      ListedIsIn(x, xs[1..]);
      assert xs == [xs[0]] + xs[1..];
    }
  }

  /**
   * The position where os.path.splitext starts the extension, found by
   * scanning back from position k: `dot` is the last dot of the last path
   * component once the scan has passed it (-1 before), and `stem` records
   * whether a character other than a dot lies between the start of that
   * component and the dot. Reaching a '/' or the start of the text ends
   * the component; the extension starts at the dot when the component has
   * such a character, and is empty (it starts at |p|) otherwise.
   */
  function ExtScan(p: string, k: nat, dot: int, stem: bool): (i: nat)
    requires k <= |p| && (dot == -1 || k <= dot < |p|)
    ensures i <= |p|
    ensures i == |p| || i == dot || p[i] == '.'
    decreases k
  {
    if k == 0 || p[k - 1] == '/' then (if dot >= 0 && stem then dot else |p|)
    else if dot == -1 then ExtScan(p, k - 1, if p[k - 1] == '.' then k - 1 else -1, false)
    else ExtScan(p, k - 1, dot, stem || p[k - 1] != '.')
  }

  /**
   * os.path.splitext: the path cut at the start of its extension; the two
   * parts make up the path, and the extension is empty or starts with a dot.
   */
  function SplitExt(p: string): (r: (string, string))
    ensures r.0 + r.1 == p
    ensures r.1 == [] || r.1[0] == '.'
  {
    var i := ExtScan(p, |p|, -1, false);
    assert p[..i] + p[i..] == p;
    (p[..i], p[i..])
  }

  /**
   * isImage: the extension, without its dot and lower-cased, is one of
   * IMAGE_EXTENSIONS; so an image always has an extension.
   */
  predicate IsImage(fname: string)
    ensures IsImage(fname) <==> Lower(LStrip(SplitExt(fname).1, '.')) in ImageExtensions
    ensures IsImage(fname) ==> SplitExt(fname).1 != []
  {
    ListedIsIn(Lower(LStrip(SplitExt(fname).1, '.')), ImageExtensions);
    Listed(Lower(LStrip(SplitExt(fname).1, '.')), ImageExtensions)
  }

  /** str.rfind(c): the index of the last occurrence of c, or -1 when there is none. */
  function RFind(s: string, c: char): (i: int)
    ensures -1 <= i < |s|
    ensures i >= 0 ==> s[i] == c
    ensures forall j :: i < j < |s| ==> s[j] != c
  {
    if s == [] then -1
    else if s[|s| - 1] == c then |s| - 1
    else RFind(s[..|s| - 1], c)
  }

  /** The last occurrence is determined by where c occurs. */
  lemma RFindAt(s: string, c: char, i: int)
    requires -1 <= i < |s| && (i >= 0 ==> s[i] == c)
    requires forall j :: i < j < |s| ==> s[j] != c
    ensures RFind(s, c) == i
  {
  }

  predicate AllDots(s: string)
  {
    forall i :: 0 <= i < |s| ==> s[i] == '.'
  }

  /**
   * os.path.splitext as the POSIX path module writes it: the last '/' and
   * the last dot are located with rfind, and the dot starts the extension
   * when it follows the '/' and something other than dots lies between them.
   */
  function SplitExtByRFind(p: string): (r: (string, string))
  {
    var sepIndex := RFind(p, '/');
    var dotIndex := RFind(p, '.');
    if dotIndex > sepIndex && !AllDots(p[sepIndex + 1..dotIndex]) then (p[..dotIndex], p[dotIndex..])
    else (p, "")
  }

  /** The scan cuts every path where the rfind formulation does, and the two parts make up the path. */
  lemma SplitExtAgrees(p: string)
    ensures SplitExt(p) == SplitExtByRFind(p)
    ensures SplitExt(p).0 + SplitExt(p).1 == p
  {
    ScanBeforeDot(p, |p|);
    var i := ExtScan(p, |p|, -1, false);
    assert p[..i] + p[i..] == p;
    assert p[..|p|] == p && p[|p|..] == "";
  }

  /** The cut the rfind formulation makes, as a position. */
  function RFindCut(p: string): nat
  {
    var s, d := RFind(p, '/'), RFind(p, '.');
    if d > s && !AllDots(p[s + 1..d]) then d else |p|
  }

  lemma {:induction false} ScanBeforeDot(p: string, k: nat)
    requires k <= |p|
    requires forall j :: k <= j < |p| ==> p[j] != '.' && p[j] != '/'
    ensures ExtScan(p, k, -1, false) == RFindCut(p)
    decreases k
  {
    if k == 0 {
      RFindAt(p, '.', -1);
    } else if p[k - 1] == '/' {
      RFindAt(p, '/', k - 1);
      RFindAt(p, '.', RFind(p, '.'));
    } else if p[k - 1] == '.' {
      ScanAfterDot(p, k - 1, k - 1, false);
    } else {
      ScanBeforeDot(p, k - 1);
    }
  }

  lemma {:induction false} ScanAfterDot(p: string, k: nat, dot: nat, stem: bool)
    requires k <= dot < |p| && p[dot] == '.'
    requires forall j :: dot < j < |p| ==> p[j] != '.' && p[j] != '/'
    requires forall j :: k <= j < dot ==> p[j] != '/'
    requires stem <==> exists j :: k <= j < dot && p[j] != '.'
    ensures ExtScan(p, k, dot, stem) == RFindCut(p)
    decreases k
  {
    if k == 0 || p[k - 1] == '/' {
      CutAtComponentStart(p, k, dot, stem);
    } else {
      var stem' := stem || p[k - 1] != '.';
      assert stem' <==> exists j :: k - 1 <= j < dot && p[j] != '.' by {
        if stem' && p[k - 1] == '.' {
          var j :| k <= j < dot && p[j] != '.';
          assert k - 1 <= j;
        }
      }
      ScanAfterDot(p, k - 1, dot, stem');
    }
  }

  lemma CutAtComponentStart(p: string, k: nat, dot: nat, stem: bool)
    requires k <= dot < |p| && p[dot] == '.' && (k == 0 || p[k - 1] == '/')
    requires forall j :: dot < j < |p| ==> p[j] != '.' && p[j] != '/'
    requires forall j :: k <= j < dot ==> p[j] != '/'
    requires stem <==> exists j :: k <= j < dot && p[j] != '.'
    ensures RFindCut(p) == if stem then dot else |p|
  {
    RFindAt(p, '.', dot);
    RFindAt(p, '/', k - 1);
    assert AllDots(p[k..dot]) <==> !stem by {
      assert forall j :: k <= j < dot ==> p[k..dot][j - k] == p[j];
    }
  }

  /** Scanning over characters that are neither dots nor '/' changes nothing. */
  lemma {:induction false} ScanPlain(p: string, k: nat, j: nat)
    requires j <= k <= |p|
    requires forall i :: j <= i < k ==> p[i] != '.' && p[i] != '/'
    ensures ExtScan(p, k, -1, false) == ExtScan(p, j, -1, false)
    decreases k
  {
    if k > j {
      ScanPlain(p, k - 1, j);
    }
  }

  /** Once a component has a character other than a dot before its dot, the dot starts the extension. */
  lemma {:induction false} ScanStem(p: string, k: nat, dot: nat, stem: bool, j: nat)
    requires j < k <= dot < |p|
    requires forall i :: j <= i < k ==> p[i] != '/'
    requires stem || exists i :: j <= i < k && p[i] != '.'
    ensures ExtScan(p, k, dot, stem) == dot
    decreases k
  {
    var stem' := stem || p[k - 1] != '.';
    if k - 1 == j || stem' {
      ScanSettled(p, k - 1, dot);
    } else {
      assert exists i :: j <= i < k - 1 && p[i] != '.';
      ScanStem(p, k - 1, dot, stem', j);
    }
  }

  lemma {:induction false} ScanSettled(p: string, k: nat, dot: nat)
    requires k <= dot < |p|
    ensures ExtScan(p, k, dot, true) == dot
    decreases k
  {
    if k > 0 && p[k - 1] != '/' {
      ScanSettled(p, k - 1, dot);
    }
  }

  /** A file name whose stem is not only dots has the dot-free text after its last dot as its extension. */
  lemma ExtensionOfName(dir: string, stem: string, ext: string)
    requires '/' !in stem && '/' !in ext && '.' !in ext
    requires exists i :: 0 <= i < |stem| && stem[i] != '.'
    ensures SplitExt(dir + stem + "." + ext).1 == "." + ext
  {
    var p := dir + stem + "." + ext;
    var d := |dir| + |stem|;
    assert p[d] == '.';
    assert forall i :: d < i < |p| ==> p[i] == ext[i - d - 1];
    ScanPlain(p, |p|, d + 1);
    assert forall i :: |dir| <= i < d ==> p[i] == stem[i - |dir|];
    var k :| 0 <= k < |stem| && stem[k] != '.';
    assert p[|dir| + k] != '.';
    ScanStem(p, d, d, false, |dir|);
    assert p[d..] == "." + ext;
  }

  /**
   * Such a file name is an image exactly when the lower-cased extension is
   * on the list, whatever directory it is in.
   */
  lemma ImageByExtension(dir: string, stem: string, ext: string)
    requires '/' !in stem && '/' !in ext && '.' !in ext
    requires exists i :: 0 <= i < |stem| && stem[i] != '.'
    ensures IsImage(dir + stem + "." + ext) <==> Lower(ext) in ImageExtensions
  {
    ExtensionOfName(dir, stem, ext);
    assert LStrip("." + ext, '.') == ext by {
      assert ("." + ext)[1..] == ext;
      assert ext == [] || ext[0] != '.';
    }
    ListedIsIn(Lower(ext), ImageExtensions);
  }

  lemma {:induction false} ScanLower(p: string, k: nat, dot: int, stem: bool)
    requires k <= |p| && (dot == -1 || k <= dot < |p|)
    requires forall i :: 0 <= i < |p| ==> (Lower(p)[i] == '.' <==> p[i] == '.') && (Lower(p)[i] == '/' <==> p[i] == '/')
    ensures ExtScan(Lower(p), k, dot, stem) == ExtScan(p, k, dot, stem)
    decreases k
  {
    if k > 0 && p[k - 1] != '/' {
      if dot == -1 {
        ScanLower(p, k - 1, if p[k - 1] == '.' then k - 1 else -1, false);
      } else {
        ScanLower(p, k - 1, dot, stem || p[k - 1] != '.');
      }
    }
  }

  lemma {:induction false} LStripLower(x: string)
    ensures LStrip(Lower(x), '.') == Lower(LStrip(x, '.'))
    decreases |x|
  {
    if x != [] && x[0] == '.' {
      LStripLower(x[1..]);
    }
  }

  lemma {:induction false} LowerIdempotent(x: string)
    ensures Lower(Lower(x)) == Lower(x)
  {
    if x != [] {
      LowerIdempotent(x[1..]);
    }
  }

  lemma {:induction false} LowerSuffix(x: string, i: nat)
    requires i <= |x|
    ensures Lower(x)[i..] == Lower(x[i..])
  {
    LowerAt(x);
    LowerAt(x[i..]);
  }

  /** Lower-casing a path changes neither where its extension starts nor whether it is an image. */
  lemma IsImageOfLower(p: string)
    ensures SplitExt(Lower(p)).1 == Lower(SplitExt(p).1)
    ensures IsImage(Lower(p)) <==> IsImage(p)
  {
    LowerAt(p);
    ScanLower(p, |p|, -1, false);
    var i := ExtScan(p, |p|, -1, false);
    LowerSuffix(p, i);
    LStripLower(SplitExt(p).1);
    LowerIdempotent(LStrip(SplitExt(p).1, '.'));
  }

  /** isImage ignores case: two paths that agree once lower-cased are both images or neither. */
  lemma IsImageIgnoresCase(p: string, q: string)
    requires Lower(p) == Lower(q)
    ensures IsImage(p) <==> IsImage(q)
  {
    IsImageOfLower(p);
    IsImageOfLower(q);
  }

  // ---------------------------------------------------------------------
  // pathsToFiles and pathsToImageFiles
  // ---------------------------------------------------------------------

  /** A directory entry as os.walk lists it. */
  datatype Node = FileNode(name: string) | DirNode(name: string, entries: seq<Node>)

  /** What a path given to pathsToFiles is: a file, a directory with its entries, or neither. */
  datatype Kind = RegularFile | Directory(entries: seq<Node>) | Neither

  datatype Target = Target(path: string, kind: Kind)

  /** A name starting with a dot, which the walk skips for directories and files alike. */
  predicate Hidden(name: string)
  {
    |name| > 0 && name[0] == '.'
  }

  /** Each chain of names with n put in front. */
  function Prefixed(n: string, cs: seq<seq<string>>): (r: seq<seq<string>>)
    ensures |r| == |cs| && forall i :: 0 <= i < |cs| ==> r[i] == [n] + cs[i]
  {
    seq(|cs|, i requires 0 <= i < |cs| => [n] + cs[i])
  }

  /**
   * The files os.walk reaches below a directory with entries es, each as
   * the chain of names leading to it: the visible files of the directory,
   * then, for each visible subdirectory in turn, the files below it.
   */
  function Walk(es: seq<Node>): seq<seq<string>>
    decreases es, 1
  {
    FilesHere(es) + SubWalks(es)
  }

  /** The visible files among the entries, as one-name chains. */
  function FilesHere(es: seq<Node>): seq<seq<string>>
  {
    if es == [] then []
    else (if es[0].FileNode? && !Hidden(es[0].name) then [[es[0].name]] else []) + FilesHere(es[1..])
  }

  /** The walks of the visible subdirectories among the entries, in order. */
  function SubWalks(es: seq<Node>): seq<seq<string>>
    decreases es, 0
  {
    if es == [] then []
    else
      (if es[0].DirNode? && !Hidden(es[0].name) then Prefixed(es[0].name, Walk(es[0].entries)) else [])
      + SubWalks(es[1..])
  }

  /** The chain of names leads, through directories among es, to a file. */
  predicate Leads(es: seq<Node>, c: seq<string>)
    decreases es
  {
    |c| > 0 &&
    exists i :: 0 <= i < |es| && es[i].name == c[0] &&
      (if |c| == 1 then es[i].FileNode? else es[i].DirNode? && Leads(es[i].entries, c[1..]))
  }

  /** No name on the chain is hidden. */
  predicate Visible(c: seq<string>)
  {
    forall i :: 0 <= i < |c| ==> !Hidden(c[i])
  }

  lemma {:induction false} FilesHereMember(es: seq<Node>, c: seq<string>)
    ensures c in FilesHere(es) <==>
      exists i :: 0 <= i < |es| && es[i].FileNode? && !Hidden(es[i].name) && c == [es[i].name]
  {
    if es != [] {
      FilesHereMember(es[1..], c);
      if c in FilesHere(es[1..]) {
        var i :| 0 <= i < |es[1..]| && es[1..][i].FileNode? && !Hidden(es[1..][i].name) && c == [es[1..][i].name];
        assert es[i + 1] == es[1..][i];
      }
      if exists i :: 0 <= i < |es| && es[i].FileNode? && !Hidden(es[i].name) && c == [es[i].name] {
        var i :| 0 <= i < |es| && es[i].FileNode? && !Hidden(es[i].name) && c == [es[i].name];
        if i > 0 {
          assert es[1..][i - 1] == es[i];
        }
      }
    }
  }

  lemma PrefixedMember(n: string, cs: seq<seq<string>>, c: seq<string>)
    ensures c in Prefixed(n, cs) <==> |c| > 0 && c[0] == n && c[1..] in cs
  {
    var r := Prefixed(n, cs);
    if c in r {
      var k :| 0 <= k < |r| && r[k] == c;
      assert c[1..] == cs[k];
    }
    if |c| > 0 && c[0] == n && c[1..] in cs {
      var k :| 0 <= k < |cs| && cs[k] == c[1..];
      assert r[k] == [c[0]] + c[1..] == c;
    }
  }

  /** The subdirectory entry of es through which the chain c continues, if any. */
  ghost predicate ThroughDir(es: seq<Node>, c: seq<string>, i: int)
  {
    0 <= i < |es| && es[i].DirNode? && !Hidden(es[i].name) && |c| > 0 && c[0] == es[i].name && c[1..] in Walk(es[i].entries)
  }

  lemma {:induction false} SubWalksMember(es: seq<Node>, c: seq<string>)
    ensures c in SubWalks(es) <==>
      |c| > 0 &&
      (exists i :: 0 <= i < |es| && es[i].DirNode? && !Hidden(es[i].name) && c[0] == es[i].name && c[1..] in Walk(es[i].entries))
  {
    if c in SubWalks(es) {
      var i := SubWalksWitness(es, c);
      assert ThroughDir(es, c, i);
    }
    if |c| > 0 &&
       (exists i :: 0 <= i < |es| && es[i].DirNode? && !Hidden(es[i].name) && c[0] == es[i].name && c[1..] in Walk(es[i].entries))
    {
      var i :| 0 <= i < |es| && es[i].DirNode? && !Hidden(es[i].name) && c[0] == es[i].name && c[1..] in Walk(es[i].entries);
      SubWalksHas(es, c, i);
    }
  }

  lemma {:induction false} SubWalksWitness(es: seq<Node>, c: seq<string>) returns (i: int)
    requires c in SubWalks(es)
    ensures ThroughDir(es, c, i)
  {
    var head := if es[0].DirNode? && !Hidden(es[0].name) then Prefixed(es[0].name, Walk(es[0].entries)) else [];
    assert SubWalks(es) == head + SubWalks(es[1..]);
    if c in head {
      PrefixedMember(es[0].name, Walk(es[0].entries), c);
      i := 0;
    } else {
      var j := SubWalksWitness(es[1..], c);
      assert es[j + 1] == es[1..][j];
      i := j + 1;
    }
  }

  lemma {:induction false} SubWalksHas(es: seq<Node>, c: seq<string>, i: int)
    requires ThroughDir(es, c, i)
    ensures c in SubWalks(es)
  {
    var head := if es[0].DirNode? && !Hidden(es[0].name) then Prefixed(es[0].name, Walk(es[0].entries)) else [];
    assert SubWalks(es) == head + SubWalks(es[1..]);
    if i == 0 {
      PrefixedMember(es[0].name, Walk(es[0].entries), c);
    } else {
      assert es[1..][i - 1] == es[i];
      SubWalksHas(es[1..], c, i - 1);
    }
  }

  /** Every file the walk yields is reached through visible names only. */
  lemma {:induction false} WalkSound(es: seq<Node>, c: seq<string>)
    requires c in Walk(es)
    ensures Leads(es, c) && Visible(c)
    decreases es
  {
    FilesHereMember(es, c);
    SubWalksMember(es, c);
    if c in FilesHere(es) {
      var i :| 0 <= i < |es| && es[i].FileNode? && !Hidden(es[i].name) && c == [es[i].name];
      assert es[i].name == c[0];
    } else {
      var i :| 0 <= i < |es| && es[i].DirNode? && !Hidden(es[i].name) && c[0] == es[i].name &&
        c[1..] in Walk(es[i].entries);
      WalkSound(es[i].entries, c[1..]);
      assert |c| != 1;
      assert forall j :: 1 <= j < |c| ==> c[j] == c[1..][j - 1];
    }
  }

  /** Every file reached through visible names only is yielded by the walk. */
  lemma {:induction false} WalkComplete(es: seq<Node>, c: seq<string>)
    requires Leads(es, c) && Visible(c)
    ensures c in Walk(es)
    decreases es
  {
    var i :| 0 <= i < |es| && es[i].name == c[0] &&
      (if |c| == 1 then es[i].FileNode? else es[i].DirNode? && Leads(es[i].entries, c[1..]));
    if |c| == 1 {
      assert c == [es[i].name];
      FilesHereMember(es, c);
    } else {
      assert Visible(c[1..]) by {
        assert forall j :: 0 <= j < |c[1..]| ==> c[1..][j] == c[j + 1];
      }
      WalkComplete(es[i].entries, c[1..]);
      SubWalksMember(es, c);
    }
  }

  /** os.path.join of a directory path and a name. */
  function JoinPath(a: string, b: string): string
  {
    if |b| > 0 && b[0] == '/' then b
    else if a == [] || a[|a| - 1] == '/' then a + b
    else a + "/" + b
  }

  /** The path a chain of names leads to from root, joined one name at a time as the walk does. */
  function JoinAll(root: string, c: seq<string>): string
    decreases |c|
  {
    if c == [] then root else JoinAll(JoinPath(root, c[0]), c[1..])
  }

  function Joined(root: string, cs: seq<seq<string>>): (r: seq<string>)
    ensures |r| == |cs| && forall i :: 0 <= i < |cs| ==> r[i] == JoinAll(root, cs[i])
  {
    seq(|cs|, i requires 0 <= i < |cs| => JoinAll(root, cs[i]))
  }

  /**
   * pathsToFiles: a given file as it is, the walk of a given directory, and
   * nothing (a warning) for a path that is neither, in the order given.
   */
  function PathsToFiles(targets: seq<Target>): (r: seq<string>)
    ensures forall j :: 0 <= j < |targets| && targets[j].kind.RegularFile? ==> targets[j].path in r
    ensures (forall j :: 0 <= j < |targets| ==> targets[j].kind.Neither?) ==> r == []
  {
    if targets == [] then []
    else
      (match targets[0].kind
       case RegularFile => [targets[0].path]
       case Directory(es) => Joined(targets[0].path, Walk(es))
       case Neither => [])
      + PathsToFiles(targets[1..])
  }

  /** The images among the paths, in order. */
  function ImagesOnly(ps: seq<string>): seq<string>
  {
    if ps == [] then []
    else (if IsImage(ps[0]) then [ps[0]] else []) + ImagesOnly(ps[1..])
  }

  /** The images among the paths are exactly the paths that pass isImage. */
  lemma ImagesOnlyMember(ps: seq<string>)
    ensures forall i :: 0 <= i < |ImagesOnly(ps)| ==> IsImage(ImagesOnly(ps)[i])
    ensures forall p :: p in ImagesOnly(ps) <==> p in ps && IsImage(p)
  {
    forall p ensures p in ImagesOnly(ps) <==> p in ps && IsImage(p) {
      ImagesOnlyHas(ps, p);
    }
  }

  lemma {:induction false} ImagesOnlyHas(ps: seq<string>, p: string)
    ensures p in ImagesOnly(ps) <==> p in ps && IsImage(p)
  {
    if ps != [] {
      ImagesOnlyHas(ps[1..], p);
      var head := if IsImage(ps[0]) then [ps[0]] else [];
      assert ImagesOnly(ps) == head + ImagesOnly(ps[1..]);
      assert p in ps <==> p == ps[0] || p in ps[1..];
    }
  }

  /** pathsToImageFiles: the files behind the given paths that pass isImage. */
  function PathsToImageFiles(targets: seq<Target>): (r: seq<string>)
    ensures forall i :: 0 <= i < |r| ==> IsImage(r[i])
    ensures forall p :: p in r <==> p in PathsToFiles(targets) && IsImage(p)
  {
    ImagesOnlyMember(PathsToFiles(targets));
    ImagesOnly(PathsToFiles(targets))
  }

  /**
   * A path comes out of pathsToFiles exactly when it was given as a file,
   * or it is reached from a given directory through visible names only.
   */
  lemma {:induction false} PathsToFilesMember(targets: seq<Target>, p: string)
    ensures p in PathsToFiles(targets) <==>
      exists j :: 0 <= j < |targets| && Yields(targets[j], p)
  {
    if targets != [] {
      PathsToFilesMember(targets[1..], p);
      var t := targets[0];
      var head := match t.kind
        case RegularFile => [t.path]
        case Directory(es) => Joined(t.path, Walk(es))
        case Neither => [];
      assert PathsToFiles(targets) == head + PathsToFiles(targets[1..]);
      assert p in head <==> Yields(t, p) by {
        if t.kind.Directory? {
          if p in head {
            var k :| 0 <= k < |head| && head[k] == p;
            var c := Walk(t.kind.entries)[k];
            WalkSound(t.kind.entries, c);
          }
          if Yields(t, p) {
            var c :| Leads(t.kind.entries, c) && Visible(c) && p == JoinAll(t.path, c);
            WalkComplete(t.kind.entries, c);
            var k :| 0 <= k < |Walk(t.kind.entries)| && Walk(t.kind.entries)[k] == c;
            assert head[k] == p;
          }
        }
      }
      if p in PathsToFiles(targets[1..]) {
        var j :| 0 <= j < |targets[1..]| && Yields(targets[1..][j], p);
        assert targets[j + 1] == targets[1..][j];
      }
      if exists j :: 0 <= j < |targets| && Yields(targets[j], p) {
        var j :| 0 <= j < |targets| && Yields(targets[j], p);
        if j > 0 {
          assert targets[1..][j - 1] == targets[j];
        }
      }
    }
  }

  /** A given path yields p: it is the file p, or p lies below it on a visible chain. */
  ghost predicate Yields(t: Target, p: string)
  {
    match t.kind
    case RegularFile => p == t.path
    case Directory(es) => exists c :: Leads(es, c) && Visible(c) && p == JoinAll(t.path, c)
    case Neither => false
  }

  // ---------------------------------------------------------------------
  // Rows of the images table
  // ---------------------------------------------------------------------

  /** The size and modification time os.path.getsize and os.path.getmtime report for a file. */
  datatype Stat = Stat(size: int, mtime: real)

  /** A row of the images table, keyed by its filepath column. */
  datatype Row = Row(
    filesize: int, modtime: real,
    origtime: Option<Value>, flength: Option<Value>, flength35: Option<Value>, aperture: Option<Value>,
    exposure: Option<Value>, iso: Option<Value>, rating: Option<Value>, comment: Option<Value>)

  /** The images table. */
  type Catalog = map<string, Row>

  /** The column of a row that holds a field. */
  function Column(row: Row, f: Field): Option<Value>
  {
    match f
    case Origtime => row.origtime
    case Comment => row.comment
    case Aperture => row.aperture
    case Flength => row.flength
    case Flength35 => row.flength35
    case Exposure => row.exposure
    case Iso => row.iso
    case Rating => row.rating
  }

  function FloatCell(x: Option<real>): Option<Value>
  {
    match x
    case None => None
    case Some(r) => Some(Float(r))
  }

  function IntCell(x: Option<int>): Option<Value>
  {
    match x
    case None => None
    case Some(i) => Some(Int(i))
  }

  /**
   * The row setMetadata writes (by INSERT, or by UPDATE of every column):
   * the file's current size and modification time, and each field as its
   * getter returns it, which is the record's entry except that a missing
   * capture time is written as the text "None".
   */
  function MakeRow(st: Stat, d: Data): (r: Row)
    requires WellTyped(d)
    ensures r.filesize == st.size && r.modtime == st.mtime
    ensures r.origtime == Some(Str(GetOrigtime(d)))
    ensures r.flength == Entry(d, Flength) && r.flength35 == Entry(d, Flength35) && r.aperture == Entry(d, Aperture)
    ensures r.exposure == Entry(d, Exposure) && r.iso == Entry(d, Iso) && r.rating == Entry(d, Rating)
    ensures r.comment == Entry(d, Comment)
  {
    GettersGiveEntries(d);
    Row(st.size, st.mtime, Some(Str(GetOrigtime(d))), FloatCell(GetFocalLength(d)),
      FloatCell(GetFocalLength35(d)), FloatCell(GetAperture(d)), GetExposure(d), FloatCell(GetIso(d)),
      IntCell(GetRating(d)), GetComment(d))
  }

  /** The entry a record holds for a field, None when it holds none. */
  function Entry(d: Data, f: Field): Option<Value>
  {
    if f in d then d[f] else None
  }

  /** On a record of typed values, the getters return the stored entries unchanged. */
  lemma GettersGiveEntries(d: Data)
    requires WellTyped(d)
    ensures FloatCell(GetFocalLength(d)) == Entry(d, Flength)
    ensures FloatCell(GetFocalLength35(d)) == Entry(d, Flength35)
    ensures FloatCell(GetAperture(d)) == Entry(d, Aperture)
    ensures FloatCell(GetIso(d)) == Entry(d, Iso)
    ensures IntCell(GetRating(d)) == Entry(d, Rating)
    ensures GetExposure(d) == Entry(d, Exposure)
    ensures GetComment(d) == Entry(d, Comment)
  {
    assert Name(Flength) == "flength" && Name(Flength35) == "flength35" && Name(Aperture) == "aperture";
    assert Name(Iso) == "iso" && Name(Rating) == "rating" && Name(Exposure) == "exposure" && Name(Comment) == "comment";
  }

  /** An entry of a row as fromVals receives it. */
  function Cell(v: Option<Value>): Option<Raw>
  {
    match v
    case None => None
    case Some(x) => Some(AsRaw(x))
  }

  /** The columns getMetadata selects, in the order of its SELECT. */
  const SelectedFields: seq<Field> := [Origtime, Flength, Aperture, Exposure, Iso, Rating, Comment, Flength35]

  /** The items for fields fs of a row: each field's name with its column. */
  function Items(row: Row, fs: seq<Field>): (vs: seq<(string, Option<Raw>)>)
    ensures |vs| == |fs|
    ensures forall i :: 0 <= i < |fs| ==> vs[i] == (Name(fs[i]), Cell(Column(row, fs[i])))
  {
    if fs == [] then [] else [(Name(fs[0]), Cell(Column(row, fs[0])))] + Items(row, fs[1..])
  }

  /**
   * The dict getMetadata builds from a selected row and hands to fromVals:
   * the last value it gives under each field's name is that field's column.
   */
  function RowVals(row: Row): (vs: seq<(string, Option<Raw>)>)
    ensures forall f :: ImageMetadata.LastGiven(vs, Name(f)) == Cell(Column(row, f))
  {
    SelectedFieldsDistinct();
    ItemsGiveEach(row, SelectedFields);
    Items(row, SelectedFields)
  }

  /** The items of distinct fields give, for each field, its own column, and nothing for a field not listed. */
  lemma {:induction false} ItemsGive(row: Row, fs: seq<Field>, f: Field)
    requires forall i, j :: 0 <= i < j < |fs| ==> fs[i] != fs[j]
    ensures ImageMetadata.LastGiven(Items(row, fs), Name(f)) == if f in fs then Cell(Column(row, f)) else None
  {
    if fs != [] {
      var rest := fs[1..];
      forall i, j | 0 <= i < j < |rest| ensures rest[i] != rest[j] {
        assert rest[i] == fs[i + 1] && rest[j] == fs[j + 1];
      }
      ItemsGive(row, rest, f);
      assert Items(row, fs)[1..] == Items(row, rest);
      NameRoundTrip(fs[0]);
      NameRoundTrip(f);
      if fs[0] == f {
        forall i | 0 <= i < |rest| ensures rest[i] != f {
          assert rest[i] == fs[i + 1];
        }
      }
      assert f in fs <==> f == fs[0] || f in rest;
    }
  }

  /** getMetadata selects every column once. */
  lemma SelectedFieldsDistinct()
    ensures forall f :: f in SelectedFields
    ensures forall i, j :: 0 <= i < j < |SelectedFields| ==> SelectedFields[i] != SelectedFields[j]
  {
    forall f ensures f in SelectedFields {
      match f
      case Origtime => assert SelectedFields[0] == f;
      case Flength => assert SelectedFields[1] == f;
      case Aperture => assert SelectedFields[2] == f;
      case Exposure => assert SelectedFields[3] == f;
      case Iso => assert SelectedFields[4] == f;
      case Rating => assert SelectedFields[5] == f;
      case Comment => assert SelectedFields[6] == f;
      case Flength35 => assert SelectedFields[7] == f;
    }
  }

  lemma ItemsGiveEach(row: Row, fs: seq<Field>)
    requires forall i, j :: 0 <= i < j < |fs| ==> fs[i] != fs[j]
    ensures forall f :: ImageMetadata.LastGiven(Items(row, fs), Name(f)) == if f in fs then Cell(Column(row, f)) else None
  {
    forall f ensures ImageMetadata.LastGiven(Items(row, fs), Name(f)) == if f in fs then Cell(Column(row, f)) else None {
      ItemsGive(row, fs, f);
    }
  }

  /** Every column of a row of typed values converts back to its field's type. */
  lemma RowValsConvert(row: Row)
    requires forall f :: Column(row, f).Some? ==> HasType(Column(row, f).value, TypeOf(f))
    ensures ImageMetadata.AllConvert(RowVals(row))
  {
    var vs := RowVals(row);
    forall i | 0 <= i < |vs| && FieldNamed(vs[i].0).Some? && vs[i].1.Some?
      ensures Construct(TypeOf(FieldNamed(vs[i].0).value), vs[i].1.value).Ok?
    {
      var f := SelectedFields[i];
      NameRoundTrip(f);
      assert vs[i] == (Name(f), Cell(Column(row, f)));
      ConstructTyped(Column(row, f).value, TypeOf(f));
    }
  }

  /**
   * Reading back a stored record: getMetadata on the row setMetadata wrote
   * for a record read from a file restores that record, except that a
   * missing capture time comes back as the text "None".
   */
  lemma StoredRecordReadsBack(st: Stat, d: Data)
    requires WellTyped(d) && forall f | f in d :: d[f].Some?
    ensures ImageMetadata.StoreVals(map[], RowVals(MakeRow(st, d))) == (d[Origtime := Some(Str(GetOrigtime(d)))], Pass)
  {
    RowReadsBack(MakeRow(st, d), d, GetOrigtime(d));
  }

  /** A row holding a record's entries, and the text o as capture time, reads back as that record. */
  lemma RowReadsBack(row: Row, d: Data, o: string)
    requires WellTyped(d) && forall f | f in d :: d[f].Some?
    requires forall f :: Column(row, f) == if f == Origtime then Some(Str(o)) else Entry(d, f)
    ensures ImageMetadata.StoreVals(map[], RowVals(row)) == (d[Origtime := Some(Str(o))], Pass)
  {
    var vs := RowVals(row);
    RowValsConvert(row);
    ImageMetadata.StoreValsFields(map[], vs);
    var r := ImageMetadata.StoreVals(map[], vs).0;
    var e := d[Origtime := Some(Str(o))];
    forall f ensures (f in r <==> f in e) && (f in r ==> r[f] == e[f]) {
      ReadBackField(vs, Column(row, f), f);
    }
    assert r == e;
  }

  /** fromVals stores for a field the typed value last given for it, and nothing when none is given. */
  lemma ReadBackField(vals: seq<(string, Option<Raw>)>, c: Option<Value>, f: Field)
    requires ImageMetadata.AllConvert(vals) && ImageMetadata.LastGiven(vals, Name(f)) == Cell(c)
    requires c.Some? ==> HasType(c.value, TypeOf(f))
    ensures f in ImageMetadata.StoreVals(map[], vals).0 <==> c.Some?
    ensures c.Some? ==> ImageMetadata.StoreVals(map[], vals).0[f] == c
  {
    ImageMetadata.StoreValsFields(map[], vals);
    if c.Some? {
      ConstructTyped(c.value, TypeOf(f));
    }
  }

  /** A record without a capture time is stored, and read back, with the text "None" as its capture time. */
  lemma MissingCaptureTimeReadsBackAsText(st: Stat, d: Data)
    requires WellTyped(d) && Origtime !in d && forall f | f in d :: d[f].Some?
    ensures Origtime in ImageMetadata.StoreVals(map[], RowVals(MakeRow(st, d))).0
    ensures ImageMetadata.StoreVals(map[], RowVals(MakeRow(st, d))).0[Origtime] == Some(Str("None"))
  {
    StoredRecordReadsBack(st, d);
  }

  // ---------------------------------------------------------------------
  // The update loop
  // ---------------------------------------------------------------------

  /**
   * The staleness test of update: a file needs updating when it has no row,
   * or its stored size or modification time differs from the current one;
   * reading the current ones raises OSError when the file is gone.
   */
  function UpdateNeeded(cat: Catalog, fname: string, fs: map<string, Stat>): (r: Result<bool, Error>)
    ensures r.Err? <==> fname in cat && fname !in fs
    ensures fname !in cat ==> r == Ok(true)
    ensures r.Ok? && fname in cat ==> (r.value <==> Stat(cat[fname].filesize, cat[fname].modtime) != fs[fname])
  {
    if fname !in cat then Ok(true)
    else if fname !in fs then Err(OSError)
    else Ok(!(cat[fname].filesize == fs[fname].size && cat[fname].modtime == fs[fname].mtime))
  }

  /** The metadata the library finds in a file, None when it cannot read the file. */
  function Source(exif: map<string, map<string, Raw>>, fname: string): Option<map<string, Raw>>
  {
    if fname in exif then Some(exif[fname]) else None
  }

  /**
   * _updateFile: for an image, read its metadata and store the row; reading
   * the file's size raises OSError when it is gone. A file that cannot be
   * read still gets a row, with no metadata. Other files are left alone.
   */
  function UpdateFileSpec(cat: Catalog, fname: string, fs: map<string, Stat>, exif: map<string, map<string, Raw>>): (r: (Catalog, Outcome<Error>))
    ensures !IsImage(fname) ==> r == (cat, Pass)
    ensures r.1.Fail? ==> r == (cat, Fail(OSError)) && fname !in fs
    ensures r.1.Pass? && IsImage(fname) ==>
      fname in fs && fname in r.0 && r.0[fname].filesize == fs[fname].size && r.0[fname].modtime == fs[fname].mtime
    ensures r.1.Pass? && IsImage(fname) ==>
      r.0 == cat[fname := MakeRow(fs[fname], ImageMetadata.ReadData(Source(exif, fname)))]
    ensures forall p :: p != fname ==> (p in r.0 <==> p in cat) && (p in cat ==> r.0[p] == cat[p])
  {
    if !IsImage(fname) then (cat, Pass)
    else if fname !in fs then (cat, Fail(OSError))
    else (cat[fname := MakeRow(fs[fname], ImageMetadata.ReadData(Source(exif, fname)))], Pass)
  }

  /**
   * An image whose metadata cannot be read still gets a row: its current
   * size and time, the text "None" as capture time and no other metadata.
   */
  lemma UnreadableImageGetsEmptyRow(cat: Catalog, fname: string, fs: map<string, Stat>, exif: map<string, map<string, Raw>>)
    requires IsImage(fname) && fname in fs && fname !in exif
    ensures UpdateFileSpec(cat, fname, fs, exif) == (cat[fname := MakeRow(fs[fname], map[])], Pass)
    ensures forall f :: Column(MakeRow(fs[fname], map[]), f) == if f == Origtime then Some(Str("None")) else None
  {
  }

  /** Where an update run got to: the table, the two counters, and the error that stopped it, if any. */
  datatype Progress = Progress(cat: Catalog, updated: nat, skipped: nat, outcome: Outcome<Error>)

  /** Counters already accumulated, added in front of the progress over the remaining files. */
  function After(updated: nat, skipped: nat, p: Progress): Progress
  {
    Progress(p.cat, updated + p.updated, skipped + p.skipped, p.outcome)
  }

  /** The update of one file: from the table and the file name, the new table and whether it raised. */
  type FileUpdate = (Catalog, string) -> (Catalog, Outcome<Error>)

  /**
   * The loop of update over a list of files with a given update of one
   * file: each file is either updated or skipped, and the first error
   * raised stops the run, so when none is raised the two counters add up
   * to the number of files.
   */
  function Run(cat: Catalog, files: seq<string>, force: bool, fs: map<string, Stat>, step: FileUpdate): (r: Progress)
    ensures r.updated + r.skipped <= |files|
    ensures r.outcome.Pass? ==> r.updated + r.skipped == |files|
    decreases |files|
  {
    if files == [] then Progress(cat, 0, 0, Pass)
    else
      var f := files[0];
      match UpdateNeeded(cat, f, fs)
      case Err(e) => Progress(cat, 0, 0, Fail(e))
      case Ok(needed) =>
        if needed || force then
          var (cat', o) := step(cat, f);
          if o.Fail? then Progress(cat', 0, 0, o)
          else After(1, 0, Run(cat', files[1..], force, fs, step))
        else After(0, 1, Run(cat, files[1..], force, fs, step))
  }

  /** One step of a run: the first file raises on its staleness test. */
  lemma RunStopsOnStat(cat: Catalog, files: seq<string>, force: bool, fs: map<string, Stat>, step: FileUpdate)
    requires files != [] && UpdateNeeded(cat, files[0], fs).Err?
    ensures Run(cat, files, force, fs, step) == Progress(cat, 0, 0, Fail(UpdateNeeded(cat, files[0], fs).error))
  {
  }

  /** One step of a run: the first file is updated. */
  lemma RunUpdates(cat: Catalog, files: seq<string>, force: bool, fs: map<string, Stat>, step: FileUpdate)
    requires files != [] && UpdateNeeded(cat, files[0], fs).Ok? && (UpdateNeeded(cat, files[0], fs).value || force)
    ensures step(cat, files[0]).1.Fail? ==>
      Run(cat, files, force, fs, step) == Progress(step(cat, files[0]).0, 0, 0, step(cat, files[0]).1)
    ensures step(cat, files[0]).1.Pass? ==>
      Run(cat, files, force, fs, step) == After(1, 0, Run(step(cat, files[0]).0, files[1..], force, fs, step))
  {
  }

  /** One step of a run: the first file is skipped. */
  lemma RunSkips(cat: Catalog, files: seq<string>, force: bool, fs: map<string, Stat>, step: FileUpdate)
    requires files != [] && UpdateNeeded(cat, files[0], fs) == Ok(false) && !force
    ensures Run(cat, files, force, fs, step) == After(0, 1, Run(cat, files[1..], force, fs, step))
  {
  }

  /** _updateFile as the update of one file. */
  function FileStep(fs: map<string, Stat>, exif: map<string, map<string, Raw>>): FileUpdate
  {
    (c: Catalog, f: string) => UpdateFileSpec(c, f, fs, exif)
  }

  /**
   * step is _updateFile for the given file system and metadata. The trigger
   * keeps a proof that only applies step from looking into UpdateFileSpec.
   */
  ghost predicate IsFileStep(step: FileUpdate, fs: map<string, Stat>, exif: map<string, map<string, Raw>>)
  {
    forall c: Catalog, f: string {:trigger UpdateFileSpec(c, f, fs, exif)} :: step(c, f) == UpdateFileSpec(c, f, fs, exif)
  }

  lemma FileStepIsFileStep(fs: map<string, Stat>, exif: map<string, map<string, Raw>>)
    ensures IsFileStep(FileStep(fs, exif), fs, exif)
  {
  }

  /** update over the image files behind the given paths. */
  function UpdateAll(cat: Catalog, files: seq<string>, force: bool, fs: map<string, Stat>,
                     exif: map<string, map<string, Raw>>): Progress
  {
    Run(cat, files, force, fs, FileStep(fs, exif))
  }

  /** The row of a file matches the file's current size and modification time. */
  predicate Current(cat: Catalog, fs: map<string, Stat>, p: string)
  {
    p in cat && p in fs && cat[p].filesize == fs[p].size && cat[p].modtime == fs[p].mtime
  }

  /** An update of one file that touches no other file's row, and no row at all when it raises. */
  ghost predicate Local(step: FileUpdate)
  {
    (forall c: Catalog, f: string, p: string :: p != f ==>
      (p in step(c, f).0 <==> p in c) && (p in c ==> step(c, f).0[p] == c[p])) &&
    (forall c: Catalog, f: string :: step(c, f).1.Fail? ==> step(c, f).0 == c)
  }

  /** An update of one file that, when it completes, leaves a current row of that file current. */
  ghost predicate KeepsCurrent(step: FileUpdate, fs: map<string, Stat>)
  {
    forall c: Catalog, f: string :: step(c, f).1.Pass? && Current(c, fs, f) ==> Current(step(c, f).0, fs, f)
  }

  /** An update of one file that, when it completes, leaves the file f with a current row. */
  ghost predicate Refreshes(step: FileUpdate, fs: map<string, Stat>, f: string)
  {
    forall c: Catalog :: step(c, f).1.Pass? ==> Current(step(c, f).0, fs, f)
  }

  /** _updateFile touches only its own file's row, and no row at all when it raises. */
  lemma FileStepLocal(fs: map<string, Stat>, exif: map<string, map<string, Raw>>)
    ensures Local(FileStep(fs, exif))
  {
    var step := FileStep(fs, exif);
    forall c: Catalog, f: string, p: string | p != f
      ensures (p in step(c, f).0 <==> p in c) && (p in c ==> step(c, f).0[p] == c[p])
    {
      var r := UpdateFileSpec(c, f, fs, exif);
      assert step(c, f) == r;
    }
    forall c: Catalog, f: string | step(c, f).1.Fail?
      ensures step(c, f).0 == c
    {
      var r := UpdateFileSpec(c, f, fs, exif);
      assert step(c, f) == r;
    }
  }

  /** _updateFile keeps a current row current. */
  lemma FileStepKeepsCurrent(fs: map<string, Stat>, exif: map<string, map<string, Raw>>)
    ensures KeepsCurrent(FileStep(fs, exif), fs)
  {
    var step := FileStep(fs, exif);
    forall c: Catalog, f: string | step(c, f).1.Pass? && Current(c, fs, f)
      ensures Current(step(c, f).0, fs, f)
    {
      var r := UpdateFileSpec(c, f, fs, exif);
      assert step(c, f) == r;
    }
  }

  /** _updateFile leaves every image it completes on with a current row. */
  lemma FileStepRefreshes(fs: map<string, Stat>, exif: map<string, map<string, Raw>>, f: string)
    requires IsImage(f)
    ensures Refreshes(FileStep(fs, exif), fs, f)
  {
    var step := FileStep(fs, exif);
    forall c: Catalog | step(c, f).1.Pass?
      ensures Current(step(c, f).0, fs, f)
    {
      var r := UpdateFileSpec(c, f, fs, exif);
      assert step(c, f) == r;
    }
  }

  /** A run changes only the rows of the files it goes through. */
  lemma {:induction false} RunFrame(cat: Catalog, files: seq<string>, force: bool, fs: map<string, Stat>,
                                    step: FileUpdate, p: string)
    requires Local(step) && p !in files
    ensures p in Run(cat, files, force, fs, step).cat <==> p in cat
    ensures p in cat ==> Run(cat, files, force, fs, step).cat[p] == cat[p]
    decreases |files|
  {
    if files != [] {
      assert p != files[0] && p !in files[1..];
      RunFrame(step(cat, files[0]).0, files[1..], force, fs, step, p);
      RunFrame(cat, files[1..], force, fs, step, p);
    }
  }

  /** A run keeps every current row current. */
  lemma {:induction false} RunKeepsCurrent(cat: Catalog, files: seq<string>, force: bool, fs: map<string, Stat>,
                                           step: FileUpdate, p: string)
    requires Local(step) && KeepsCurrent(step, fs) && Current(cat, fs, p)
    ensures Current(Run(cat, files, force, fs, step).cat, fs, p)
    decreases |files|
  {
    if files != [] {
      var (cat', o) := step(cat, files[0]);
      assert o.Pass? ==> Current(cat', fs, p);
      if o.Pass? {
        RunKeepsCurrent(cat', files[1..], force, fs, step, p);
      }
      RunKeepsCurrent(cat, files[1..], force, fs, step, p);
    }
  }

  /**
   * A run that completes over files the update of one file refreshes
   * leaves every one of them with a current row.
   */
  lemma {:induction false} RunMakesCurrent(cat: Catalog, files: seq<string>, force: bool, fs: map<string, Stat>,
                                           step: FileUpdate, i: nat)
    requires Local(step) && KeepsCurrent(step, fs)
    requires forall j :: 0 <= j < |files| ==> Refreshes(step, fs, files[j])
    requires i < |files| && Run(cat, files, force, fs, step).outcome.Pass?
    ensures Current(Run(cat, files, force, fs, step).cat, fs, files[i])
    decreases |files|
  {
    var f, rest := files[0], files[1..];
    var (cat', o) := step(cat, f);
    assert Refreshes(step, fs, f);
    if i == 0 {
      if UpdateNeeded(cat, f, fs).Ok? {
        if UpdateNeeded(cat, f, fs).value || force {
          RunKeepsCurrent(cat', rest, force, fs, step, f);
        } else {
          RunKeepsCurrent(cat, rest, force, fs, step, f);
        }
      }
    } else {
      assert files[i] == rest[i - 1];
      assert forall j :: 0 <= j < |rest| ==> Refreshes(step, fs, rest[j]) by {
        assert forall j :: 0 <= j < |rest| ==> rest[j] == files[j + 1];
      }
      if UpdateNeeded(cat, f, fs).Ok? {
        if UpdateNeeded(cat, f, fs).value || force {
          RunMakesCurrent(cat', rest, force, fs, step, i - 1);
        } else {
          RunMakesCurrent(cat, rest, force, fs, step, i - 1);
        }
      }
    }
  }

  /** A run without force over files whose rows are all current skips every one of them and changes nothing. */
  lemma {:induction false} RunSkipsCurrent(cat: Catalog, files: seq<string>, fs: map<string, Stat>, step: FileUpdate)
    requires forall p :: p in files ==> Current(cat, fs, p)
    ensures Run(cat, files, false, fs, step) == Progress(cat, 0, |files|, Pass)
    decreases |files|
  {
    if files != [] {
      assert files[0] in files;
      assert forall p :: p in files[1..] ==> p in files;
      RunSkipsCurrent(cat, files[1..], fs, step);
    }
  }

  /** With force, a run that completes updates every file and skips none. */
  lemma {:induction false} ForceUpdatesAll(cat: Catalog, files: seq<string>, fs: map<string, Stat>, step: FileUpdate)
    requires Run(cat, files, true, fs, step).outcome.Pass?
    ensures Run(cat, files, true, fs, step).updated == |files|
    ensures Run(cat, files, true, fs, step).skipped == 0
    decreases |files|
  {
    if files != [] {
      ForceUpdatesAll(step(cat, files[0]).0, files[1..], fs, step);
    }
  }

  /**
   * After an update of image files that completes, every one of them has a
   * current row, and a second update without force over the same unchanged
   * files updates none and skips all of them, leaving the table as it was.
   */
  lemma UpdateTwiceSkipsAll(cat: Catalog, files: seq<string>, force: bool, fs: map<string, Stat>,
                            exif: map<string, map<string, Raw>>)
    requires forall i :: 0 <= i < |files| ==> IsImage(files[i])
    requires UpdateAll(cat, files, force, fs, exif).outcome.Pass?
    ensures forall p :: p in files ==> Current(UpdateAll(cat, files, force, fs, exif).cat, fs, p)
    ensures var once := UpdateAll(cat, files, force, fs, exif).cat;
      UpdateAll(once, files, false, fs, exif) == Progress(once, 0, |files|, Pass)
  {
    var step := FileStep(fs, exif);
    var once := Run(cat, files, force, fs, step).cat;
    FileStepLocal(fs, exif);
    FileStepKeepsCurrent(fs, exif);
    forall j | 0 <= j < |files|
      ensures Refreshes(step, fs, files[j])
    {
      FileStepRefreshes(fs, exif, files[j]);
    }
    forall p | p in files
      ensures Current(once, fs, p)
    {
      var i :| 0 <= i < |files| && files[i] == p;
      RunMakesCurrent(cat, files, force, fs, step, i);
    }
    RunSkipsCurrent(once, files, fs, step);
  }

  // ---------------------------------------------------------------------
  // dbRowToString
  // ---------------------------------------------------------------------

  /** str() of each cell followed by a tab, the trailing tab included. */
  function CellsText(cells: seq<Option<Value>>): string
  {
    if cells == [] then "" else Render(cells[0]) + "\t" + CellsText(cells[1..])
  }

  /** A text of tab-terminated segments cut back into its segments. */
  function SplitTerminated(s: string): seq<string>
    decreases |s|
  {
    match IndexOf(s, '\t')
    case None => if s == [] then [] else [s]
    case Some(k) => [s[..k]] + SplitTerminated(s[k + 1..])
  }

  function Rendered(cells: seq<Option<Value>>): (r: seq<string>)
    ensures |r| == |cells| && forall i :: 0 <= i < |cells| ==> r[i] == Render(cells[i])
  {
    seq(|cells|, i requires 0 <= i < |cells| => Render(cells[i]))
  }

  /** Texts each followed by a tab, joined. */
  function Terminated(ts: seq<string>): string
  {
    if ts == [] then "" else ts[0] + "\t" + Terminated(ts[1..])
  }

  /** Cutting tab-terminated texts that hold no tab at the tabs gives them back. */
  lemma {:induction false} TerminatedSplits(ts: seq<string>)
    requires forall i :: 0 <= i < |ts| ==> '\t' !in ts[i]
    ensures SplitTerminated(Terminated(ts)) == ts
  {
    if ts != [] {
      var head, rest := ts[0], Terminated(ts[1..]);
      var s := Terminated(ts);
      assert s == head + ("\t" + rest);
      IndexOfAfterText(head, "\t" + rest);
      assert s[..|head|] == head && s[|head| + 1..] == rest;
      SplitTerminatedAt(s, |head|);
      TerminatedSplits(ts[1..]);
      assert ts == [head] + ts[1..];
    }
  }

  lemma SplitTerminatedAt(s: string, k: nat)
    requires IndexOf(s, '\t') == Some(k)
    ensures SplitTerminated(s) == [s[..k]] + SplitTerminated(s[k + 1..])
  {
  }

  /** The text of a row is the rendered cells, each followed by a tab. */
  lemma {:induction false} CellsTextTerminated(cells: seq<Option<Value>>)
    ensures CellsText(cells) == Terminated(Rendered(cells))
  {
    if cells != [] {
      CellsTextTerminated(cells[1..]);
      assert Rendered(cells)[1..] == Rendered(cells[1..]);
    }
  }

  /**
   * The row text keeps its trailing tab, and when no cell's text contains a
   * tab, cutting it at the tabs gives back each cell's text in order.
   */
  lemma CellsTextSplits(cells: seq<Option<Value>>)
    requires forall i :: 0 <= i < |cells| ==> '\t' !in Render(cells[i])
    ensures cells != [] ==> |CellsText(cells)| > 0 && CellsText(cells)[|CellsText(cells)| - 1] == '\t'
    ensures SplitTerminated(CellsText(cells)) == Rendered(cells)
  {
    CellsTextTerminated(cells);
    TerminatedSplits(Rendered(cells));
    if cells != [] {
      var s := CellsText(cells);
      assert s == Render(cells[0]) + "\t" + CellsText(cells[1..]);
      TerminatedEnds(Rendered(cells));
    }
  }

  lemma {:induction false} TerminatedEnds(ts: seq<string>)
    requires ts != []
    ensures |Terminated(ts)| > 0 && Terminated(ts)[|Terminated(ts)| - 1] == '\t'
  {
    if ts[1..] != [] {
      TerminatedEnds(ts[1..]);
    }
  }

  lemma {:induction false} IndexOfAfterText(a: string, b: string)
    requires '\t' !in a && b != [] && b[0] == '\t'
    ensures IndexOf(a + b, '\t') == Some(|a|)
  {
    if a != [] {
      assert (a + b)[1..] == a[1..] + b;
      IndexOfAfterText(a[1..], b);
    } else {
      assert a + b == b;
    }
  }

  lemma AppendAssoc(a: string, b: string, c: string)
    ensures (a + b) + c == a + (b + c)
  {
  }

  /**
   * dbRowToString: str() of each element of a row followed by a tab; the
   * result of rstrip() is dropped, so the trailing tab stays. An empty row
   * gives the empty text.
   */
  method DbRowToString(row: seq<Option<Value>>) returns (ret: string)
    ensures ret == CellsText(row)
  {
    ret := "";
    if row != [] {
      var elems := row;
      while elems != []
        invariant ret + CellsText(elems) == CellsText(row)
        decreases |elems|
      {
        var cell := Render(elems[0]);
        AppendAssoc(ret, cell + "\t", CellsText(elems[1..]));
        ret := ret + (cell + "\t");
        elems := elems[1..];
      }
    }
  }

  // ---------------------------------------------------------------------
  // The database
  // ---------------------------------------------------------------------

  class PhotoDB {
    /** The images table. */
    var images: Catalog

    /** A database with an empty images table. */
    constructor ()
      ensures images == map[]
    {
      images := map[];
    }

    /**
     * getMetadata: None when the table has no row for the file; otherwise a
     * record built by fromVals from the row's fields, or the error fromVals
     * raises.
     */
    method GetMetadata(fname: string) returns (r: Result<Option<ImageMetadata.ImageMetadata>, Error>)
      ensures fname !in images ==> r == Ok(None)
      ensures fname in images && ImageMetadata.StoreVals(map[], RowVals(images[fname])).1.Fail? ==>
        r == Err(ImageMetadata.StoreVals(map[], RowVals(images[fname])).1.error)
      ensures fname in images && ImageMetadata.StoreVals(map[], RowVals(images[fname])).1.Pass? ==>
        r.Ok? && r.value.Some? && fresh(r.value.value) && r.value.value.fname == fname &&
        r.value.value.data == ImageMetadata.StoreVals(map[], RowVals(images[fname])).0
    {
      if fname !in images {
        return Ok(None);
      }
      var e := new ImageMetadata.ImageMetadata(fname);
      var outcome := e.FromVals(RowVals(images[fname]));
      if outcome.Fail? {
        return Err(outcome.error);
      }
      return Ok(Some(e));
    }

    /**
     * setMetadata: INSERT the row for the file; when a row for it exists the
     * INSERT fails on the primary key and an UPDATE overwrites every column
     * instead. Reading the file's size raises OSError when it is gone.
     */
    method SetMetadata(fname: string, fs: map<string, Stat>, mdata: ImageMetadata.ImageMetadata) returns (r: Outcome<Error>)
      requires WellTyped(mdata.data)
      modifies this
      ensures fname !in fs ==> r == Fail(OSError) && images == old(images)
      ensures fname in fs ==> r == Pass && images == old(images)[fname := MakeRow(fs[fname], mdata.data)]
    {
      if fname !in fs {
        return Fail(OSError);
      }
      var st := fs[fname];
      var d := mdata.data;
      if fname !in images {
        images := images[fname := MakeRow(st, d)];
      } else {
        var row := images[fname];
        var written := MakeRow(st, d);
        row := row.(filesize := st.size, modtime := st.mtime, origtime := written.origtime,
          flength := written.flength, flength35 := written.flength35, aperture := written.aperture,
          exposure := written.exposure, iso := written.iso, rating := written.rating, comment := written.comment);
        images := images[fname := row];
      }
      r := Pass;
    }

    /**
     * _updateFile: read and store an image file; leave any other file
     * alone. Its effect is stated through step, which is UpdateFileSpec.
     */
    method UpdateFile(fname: string, fs: map<string, Stat>, exif: map<string, map<string, Raw>>, ghost step: FileUpdate)
      returns (r: Outcome<Error>)
      requires IsFileStep(step, fs, exif)
      modifies this
      ensures (images, r) == step(old(images), fname)
    {
      ghost var spec := UpdateFileSpec(images, fname, fs, exif);
      if IsImage(fname) {
        var md := new ImageMetadata.ImageMetadata(fname);
        md.Read(Source(exif, fname));
        r := SetMetadata(fname, fs, md);
      } else {
        r := Pass;
      }
    }

    /**
     * update: for each image file behind the given paths, update its row when
     * it is stale or when forced, counting updated and skipped files; the
     * first error raised ends the run.
     */
    method Update(targets: seq<Target>, force: bool, fs: map<string, Stat>, exif: map<string, map<string, Raw>>)
      returns (numUpdated: nat, numSkipped: nat, r: Outcome<Error>)
      modifies this
      ensures Progress(images, numUpdated, numSkipped, r) == UpdateAll(old(images), PathsToImageFiles(targets), force, fs, exif)
    {
      var files := PathsToImageFiles(targets);
      FileStepIsFileStep(fs, exif);
      numUpdated, numSkipped, r := UpdateFiles(files, force, fs, exif, FileStep(fs, exif));
    }

    /**
     * The loop of update over the image files, proved against a run whose
     * update of one file is _updateFile.
     */
    method UpdateFiles(files: seq<string>, force: bool, fs: map<string, Stat>, exif: map<string, map<string, Raw>>,
                       ghost step: FileUpdate)
      returns (numUpdated: nat, numSkipped: nat, r: Outcome<Error>)
      requires IsFileStep(step, fs, exif)
      modifies this
      ensures Progress(images, numUpdated, numSkipped, r) == Run(old(images), files, force, fs, step)
    {
      numUpdated, numSkipped := 0, 0;
      var rest := files;
      while rest != []
        invariant After(numUpdated, numSkipped, Run(images, rest, force, fs, step)) == Run(old(images), files, force, fs, step)
        decreases |rest|
      {
        var fname := rest[0];
        ghost var pre := images;
        var updateNeeded := true;
        if fname in images {
          if fname !in fs {
            RunStopsOnStat(pre, rest, force, fs, step);
            return numUpdated, numSkipped, Fail(OSError);
          }
          if images[fname].filesize == fs[fname].size && images[fname].modtime == fs[fname].mtime {
            updateNeeded := false;
          }
        }
        assert UpdateNeeded(pre, fname, fs) == Ok(updateNeeded);
        if updateNeeded || force {
          var o := UpdateFile(fname, fs, exif, step);
          RunUpdates(pre, rest, force, fs, step);
          if o.Fail? {
            return numUpdated, numSkipped, o;
          }
          numUpdated := numUpdated + 1;
        } else {
          RunSkips(pre, rest, force, fs, step);
          numSkipped := numSkipped + 1;
        }
        rest := rest[1..];
      }
      r := Pass;
    }
  }
}
