/** Changelog fragments: the files of the fragments directory whose names
    end in `.rst`, each named `<name>.<type>.<ext>`. File contents are
    handed in as a map from path to text. */
module Fragments {
  import opened Failures
  import opened PyStr
  import opened Sorting

  /** `Fragment(path, name, body, type)`. */
  datatype Fragment = Fragment(path: string, name: string, body: string, changeType: string)

  /** The text of the files the fragments directory holds, by path. */
  type Files = map<string, string>

  /** `open(path).read()`. Every path the model reads comes from the
      directory listing, so the file is there; an absent path reads as
      empty text. */
  function ReadFile(files: Files, path: string): (text: string)
    ensures path in files ==> text == files[path]
  {
    if path in files then files[path] else ""
  }

  const NameMessage: string :=
    "Fragment filename name must have name, fragment type and proper extension parts joined by a dot."

  /** `os.path.basename(path)`: what follows the last `/`. */
  function Basename(path: string): (b: string)
    ensures '/' !in b
    ensures |b| <= |path| && path[|path| - |b|..] == b
    ensures |b| < |path| ==> path[|path| - |b| - 1] == '/'
  {
    if path == [] || path[|path| - 1] == '/' then []
    else Basename(path[..|path| - 1]) + [path[|path| - 1]]
  }

  /** `os.path.join(base, item)`: an absolute item replaces the base, and a
      `/` is put between the two unless the base is empty or ends with one. */
  function JoinPath(base: string, item: string): (r: string)
    ensures item != [] && item[0] == '/' ==> r == item
    ensures !(item != [] && item[0] == '/') ==> |base| <= |r| && r[..|base|] == base
    ensures |item| <= |r| && r[|r| - |item|..] == item
  {
    if item != [] && item[0] == '/' then item
    else if base == [] || base[|base| - 1] == '/' then base + item
    else base + "/" + item
  }

  /** A directory entry, which holds no `/`, is the basename of its path. */
  lemma BasenameOfJoin(base: string, item: string)
    requires '/' !in item
    ensures Basename(JoinPath(base, item)) == item
  {
    if item == [] || item[0] != '/' {
      if base == [] || base[|base| - 1] == '/' {
        BasenameAfterSlash(base, item);
      } else {
        BasenameAfterSlash(base + "/", item);
        assert base + "/" + item == (base + "/") + item;
      }
    }
  }

  lemma {:induction false} BasenameAfterSlash(dir: string, item: string)
    requires '/' !in item
    requires dir == [] || dir[|dir| - 1] == '/'
    ensures Basename(dir + item) == item
  {
    if item == [] {
      assert dir + item == dir;
    } else {
      var n := |item| - 1;
      var init, last := item[..n], item[n];
      assert item == init + [last];
      BasenameAfterSlash(dir, init);
      assert dir + item == (dir + init) + [last];
      BasenameStep(dir + init, last);
    }
  }

  /** A character other than `/` extends the basename. */
  lemma BasenameStep(p: string, c: char)
    requires c != '/'
    ensures Basename(p + [c]) == Basename(p) + [c]
  {
    assert (p + [c])[..|p|] == p;
  }

  /** `Fragment.from_path(path)`: the basename split at every `.` must give
      exactly name, type and extension; the file is read only then. */
  function FromPath(path: string, files: Files): (r: Result<Fragment>)
    ensures r.Ok? <==> multiset(Basename(path))['.'] == 2
    ensures r.Err? ==> r.error == InvalidFragment(path, NameMessage)
    ensures r.Ok? ==> r.value.path == path && r.value.body == ReadFile(files, path)
  {
    var parts := Split(Basename(path), '.');
    if |parts| != 3 then Err(InvalidFragment(path, NameMessage))
    else Ok(Fragment(path, parts[0], ReadFile(files, path), parts[1]))
  }

  /** An accepted name is `name.type.ext` with no dot inside a part. */
  lemma FromPathParts(path: string, files: Files)
    requires FromPath(path, files).Ok?
    ensures '.' !in FromPath(path, files).value.name && '.' !in FromPath(path, files).value.changeType
    ensures var f := FromPath(path, files).value;
      exists ext :: '.' !in ext && Basename(path) == f.name + "." + f.changeType + "." + ext
  {
    var parts := Split(Basename(path), '.');
    JoinThree(parts, ".");
    assert '.' !in parts[2];
  }

  lemma JoinThree(parts: seq<string>, sep: string)
    requires |parts| == 3
    ensures Join(parts, sep) == parts[0] + sep + parts[1] + sep + parts[2]
  {
    assert parts[1..][1..] == [parts[2]];
    assert Join(parts[1..], sep) == parts[1] + sep + parts[2];
  }

  /** A name with two dots or more than three parts is refused. */
  lemma FromPathDotCount(path: string, files: Files)
    requires multiset(Basename(path))['.'] != 2
    ensures FromPath(path, files) == Err(InvalidFragment(path, NameMessage))
  {
  }

  /** The directory entries that end with `.rst`, in the order given. */
  function RstItems(items: seq<string>): (r: seq<string>)
    ensures forall x :: x in r <==> x in items && EndsWith(x, ".rst")
    ensures forall x :: multiset(r)[x] == if EndsWith(x, ".rst") then multiset(items)[x] else 0
  {
    if items == [] then []
    else
      assert items == [items[0]] + items[1..];
      var rest := RstItems(items[1..]);
      if EndsWith(items[0], ".rst") then [items[0]] + rest else rest
  }

  /** Filtering a listing piece by piece filters the whole: the kept
      entries stay in the order of the listing. */
  lemma {:induction false} RstItemsConcat(a: seq<string>, b: seq<string>)
    ensures RstItems(a + b) == RstItems(a) + RstItems(b)
  {
    if a != [] {
      var ab := a + b;
      assert ab[0] == a[0] && ab[1..] == a[1..] + b;
      RstItemsConcat(a[1..], b);
      if EndsWith(a[0], ".rst") {
        assert RstItems(ab) == [a[0]] + RstItems(ab[1..]);
        assert RstItems(a) == [a[0]] + RstItems(a[1..]);
      } else {
        assert RstItems(ab) == RstItems(ab[1..]);
        assert RstItems(a) == RstItems(a[1..]);
      }
    } else {
      assert a + b == b;
    }
  }

  /** A sorted listing keeps its `.rst` entries sorted. */
  lemma {:induction false} RstItemsSorted(items: seq<string>)
    requires Sorted(items)
    ensures Sorted(RstItems(items))
  {
    if items != [] {
      SortedRest(items);
      RstItemsSorted(items[1..]);
      var rest := RstItems(items[1..]);
      if EndsWith(items[0], ".rst") {
        forall z | z in rest ensures LexLe(items[0], z) {
          var k :| 0 <= k < |items[1..]| && items[1..][k] == z;
          assert items[k + 1] == z;
        }
        SortedCons(items[0], rest);
      }
    }
  }

  /** The paths of the `.rst` entries, joined to the fragments directory. */
  function RstPaths(base: string, items: seq<string>): (paths: seq<string>)
    ensures |paths| == |RstItems(items)|
    ensures forall k :: 0 <= k < |paths| ==> paths[k] == JoinPath(base, RstItems(items)[k])
  {
    var rst := RstItems(items);
    seq(|rst|, k requires 0 <= k < |rst| => JoinPath(base, rst[k]))
  }

  /** `[Fragment.from_path(p) for p in paths]`: the first badly named file
      stops the comprehension with its error. */
  function LoadFragments(paths: seq<string>, files: Files): (r: Result<seq<Fragment>>)
    ensures r.Ok? ==> |r.value| == |paths|
  {
    if paths == [] then Ok([])
    else
      var first :- FromPath(paths[0], files);
      var rest :- LoadFragments(paths[1..], files);
      Ok([first] + rest)
  }

  /** Loading succeeds exactly when every path is well named. */
  lemma {:induction false} LoadFragmentsOk(paths: seq<string>, files: Files)
    ensures LoadFragments(paths, files).Ok? <==> forall k :: 0 <= k < |paths| ==> FromPath(paths[k], files).Ok?
  {
    if paths != [] {
      LoadFragmentsOk(paths[1..], files);
      var first, rest := FromPath(paths[0], files), LoadFragments(paths[1..], files);
      if first.Ok? && rest.Ok? {
        forall k | 0 < k < |paths| ensures FromPath(paths[k], files).Ok? {
          assert paths[k] == paths[1..][k - 1];
        }
      } else if first.Ok? {
        var k :| 0 <= k < |paths| - 1 && !FromPath(paths[1..][k], files).Ok?;
        assert paths[k + 1] == paths[1..][k];
      }
    }
  }

  /** A successful load yields the fragment of each path, in order. */
  lemma LoadFragmentsValues(paths: seq<string>, files: Files)
    requires LoadFragments(paths, files).Ok?
    ensures forall k :: 0 <= k < |paths| ==> Ok(LoadFragments(paths, files).value[k]) == FromPath(paths[k], files)
  {
    LoadFragmentsOk(paths, files);
    var frs := seq(|paths|, k requires 0 <= k < |paths| => FromPath(paths[k], files).value);
    LoadFragmentsOf(paths, files, frs);
    forall k | 0 <= k < |paths| ensures Ok(LoadFragments(paths, files).value[k]) == FromPath(paths[k], files) {
      var f := FromPath(paths[k], files);
      assert f.Ok? && frs[k] == f.value;
    }
  }

  /** Paths that each name a fragment load as those fragments, in order. */
  lemma {:induction false} LoadFragmentsOf(paths: seq<string>, files: Files, frs: seq<Fragment>)
    requires |frs| == |paths|
    requires forall k :: 0 <= k < |paths| ==> FromPath(paths[k], files) == Ok(frs[k])
    ensures LoadFragments(paths, files) == Ok(frs)
  {
    if paths != [] {
      var rest, more := paths[1..], frs[1..];
      forall k | 0 <= k < |rest| ensures FromPath(rest[k], files) == Ok(more[k]) {
        assert rest[k] == paths[k + 1] && more[k] == frs[k + 1];
      }
      LoadFragmentsOf(rest, files, more);
      HeadSplit(frs);
      assert LoadFragments(paths, files) == Ok([frs[0]] + more);
    }
  }

  /** Path k is the first one that is not well named. */
  predicate FirstBadPath(paths: seq<string>, files: Files, k: nat)
    requires k < |paths|
  {
    FromPath(paths[k], files).Err? && forall m :: 0 <= m < k ==> FromPath(paths[m], files).Ok?
  }

  /** A failed load reports the first badly named path. */
  lemma {:induction false} LoadFragmentsFirstError(paths: seq<string>, files: Files)
    requires LoadFragments(paths, files).Err?
    ensures exists k ::
      0 <= k < |paths| && FirstBadPath(paths, files, k)
        && LoadFragments(paths, files).error == InvalidFragment(paths[k], NameMessage)
  {
    var first := FromPath(paths[0], files);
    if first.Ok? {
      var rest := paths[1..];
      var e := LoadFragments(rest, files);
      assert e.Err? && LoadFragments(paths, files) == e;
      LoadFragmentsFirstError(rest, files);
      var k :| 0 <= k < |rest| && FirstBadPath(rest, files, k)
        && e.error == InvalidFragment(rest[k], NameMessage);
      FirstBadShift(paths, files, k);
      assert paths[k + 1] == rest[k];
    } else {
      assert FirstBadPath(paths, files, 0);
    }
  }

  /** A well-named head moves the first bad path one place along. */
  lemma FirstBadShift(paths: seq<string>, files: Files, k: nat)
    requires k + 1 < |paths| && FromPath(paths[0], files).Ok? && FirstBadPath(paths[1..], files, k)
    ensures FirstBadPath(paths, files, k + 1)
  {
    assert paths[1..][k] == paths[k + 1];
    forall m | 0 <= m < k + 1 ensures FromPath(paths[m], files).Ok? {
      var p := if m == 0 then paths[0] else paths[1..][m - 1];
      assert FromPath(p, files).Ok? && p == paths[m];
    }
  }
}
