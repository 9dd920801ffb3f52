/**
 * Where an image field keeps its files: `getPath` joins the site root, the configured
 * directory with its edge slashes trimmed, and a file name.
 */
module Paths {
  import opened FieldConfig

  predicate AllSlashes(s: string) {
    forall k :: 0 <= k < |s| ==> s[k] == '/'
  }

  /** `s` without its leading '/' characters. */
  function TrimLeading(s: string): string {
    if |s| > 0 && s[0] == '/' then TrimLeading(s[1..]) else s
  }

  /** `s` without its trailing '/' characters. */
  function TrimTrailing(s: string): string {
    if |s| > 0 && s[|s| - 1] == '/' then TrimTrailing(s[..|s| - 1]) else s
  }

  /** `TrimLeading` keeps a suffix of `s`, preceded only by slashes and not itself starting with one. */
  lemma {:induction false} TrimLeadingKeepsSuffix(s: string)
    ensures |TrimLeading(s)| <= |s| && TrimLeading(s) == s[|s| - |TrimLeading(s)|..]
    ensures AllSlashes(s[..|s| - |TrimLeading(s)|])
    ensures TrimLeading(s) == [] || TrimLeading(s)[0] != '/'
  {
    if |s| > 0 && s[0] == '/' {
      TrimLeadingKeepsSuffix(s[1..]);
      var n := |s| - |TrimLeading(s)|;
      forall k | 0 <= k < n ensures s[..n][k] == '/' {
        if k > 0 { assert s[..n][k] == s[1..][..n - 1][k - 1]; }
      }
    }
  }

  /** `TrimTrailing` keeps a prefix of `s`, followed only by slashes and not itself ending with one. */
  lemma {:induction false} TrimTrailingKeepsPrefix(s: string)
    ensures |TrimTrailing(s)| <= |s| && TrimTrailing(s) == s[..|TrimTrailing(s)|]
    ensures AllSlashes(s[|TrimTrailing(s)|..])
    ensures TrimTrailing(s) == [] || TrimTrailing(s)[|TrimTrailing(s)| - 1] != '/'
  {
    if |s| > 0 && s[|s| - 1] == '/' {
      var front := s[..|s| - 1];
      TrimTrailingKeepsPrefix(front);
      var n := |TrimTrailing(s)|;
      assert front[..n] == s[..n];
      forall j | 0 <= j < |s| - n ensures s[n..][j] == '/' {
        if n + j < |s| - 1 { assert s[n..][j] == front[n..][j]; }
      }
    }
  }

  /**
   * PHP's `trim($s, '/')`: never longer than `s`, and neither beginning nor ending with a
   * slash. `TrimIsSlice` and `TrimUnique` below pin it down exactly.
   */
  function Trim(s: string): (r: string)
    ensures |r| <= |s|
    ensures r == [] || (r[0] != '/' && r[|r| - 1] != '/')
  {
    TrimLeadingKeepsSuffix(s);
    TrimTrailingKeepsPrefix(TrimLeading(s));
    TrimTrailing(TrimLeading(s))
  }

  /**
   * What `Trim` returns: the slice of `s` left after removing a run of slashes at each end,
   * which neither begins nor ends with a slash.
   */
  lemma TrimIsSlice(s: string) returns (i: nat, j: nat)
    ensures i <= j <= |s| && Trim(s) == s[i..j]
    ensures AllSlashes(s[..i]) && AllSlashes(s[j..])
    ensures Trim(s) == [] || (Trim(s)[0] != '/' && Trim(s)[|Trim(s)| - 1] != '/')
  {
    var left := TrimLeading(s);
    TrimLeadingKeepsSuffix(s);
    i := |s| - |left|;
    var r := TrimTrailing(left);
    TrimTrailingKeepsPrefix(left);
    j := i + |r|;
    assert left == s[i..];
    assert r == s[i..j];
    assert s[j..] == left[|r|..];
  }

  /** A run of `i` slashes followed by a non-slash (or by nothing) is what `TrimLeading` removes. */
  lemma {:induction false} TrimLeadingUnique(s: string, i: nat)
    requires i <= |s| && AllSlashes(s[..i])
    requires i < |s| ==> s[i] != '/'
    ensures TrimLeading(s) == s[i..]
    decreases i
  {
    if i > 0 {
      assert s[..i][0] == s[0];
      assert s[1..][..i - 1] == s[..i][1..];
      TrimLeadingUnique(s[1..], i - 1);
      assert s[1..][i - 1..] == s[i..];
    }
  }

  /** A non-slash (or nothing) at `j - 1` followed only by slashes is where `TrimTrailing` stops. */
  lemma {:induction false} TrimTrailingUnique(s: string, j: nat)
    requires j <= |s| && AllSlashes(s[j..])
    requires j > 0 ==> s[j - 1] != '/'
    ensures TrimTrailing(s) == s[..j]
    decreases |s| - j
  {
    if j < |s| {
      var n := |s| - 1;
      assert s[j..][n - j] == s[n];
      assert s[..n][j..] == s[j..][..n - j];
      TrimTrailingUnique(s[..n], j);
      assert s[..n][..j] == s[..j];
    }
  }

  /**
   * Conversely, a slice of `s` that has only slashes outside it and none at its own ends is
   * exactly `Trim(s)`: trimming is determined by these two facts.
   */
  lemma TrimUnique(s: string, i: nat, j: nat)
    requires i <= j <= |s|
    requires AllSlashes(s[..i]) && AllSlashes(s[j..])
    requires i < j ==> s[i] != '/' && s[j - 1] != '/'
    ensures Trim(s) == s[i..j]
  {
    if i < j {
      TrimLeadingUnique(s, i);
      TrimTrailingOfSuffix(s, i, j);
    } else {
      forall k | 0 <= k < |s| ensures s[k] == '/' {
        if k < i { assert s[..i][k] == s[k]; } else { assert s[j..][k - j] == s[k]; }
      }
      assert s[..|s|] == s;
      TrimLeadingUnique(s, |s|);
    }
  }

  lemma TrimTrailingOfSuffix(s: string, i: nat, j: nat)
    requires i < j <= |s| && AllSlashes(s[j..]) && s[j - 1] != '/'
    ensures TrimTrailing(s[i..]) == s[i..j]
  {
    var t := s[i..];
    assert t[j - i..] == s[j..];
    TrimTrailingUnique(t, j - i);
  }

  /** Trimming twice is trimming once. */
  lemma TrimIdempotent(s: string)
    ensures Trim(Trim(s)) == Trim(s)
  {
    var t := Trim(s);
    var i, j := TrimIsSlice(s);
    TrimUnique(t, 0, |t|);
  }

  /**
   * `getPath($fieldparams, $filename)`: root, '/', the trimmed directory, '/', the file name.
   * The path starts with the root and a slash and ends with a slash and the file name;
   * `GetPathExtends`, `GetPathInjective`, `GetPathDefault` and `GetPathIgnoresEdgeSlashes`
   * state the rest.
   */
  function GetPath(root: string, params: Params, filename: string): (p: string)
    ensures |p| >= |root| + 2 + |filename|
    ensures p[..|root| + 1] == root + "/"
    ensures p[|p| - |filename| - 1..] == "/" + filename
  {
    root + "/" + Trim(PathSetting(params)) + "/" + filename
  }

  /**
   * The directory path (`getPath` without a file name, as `uploadImage` uses it) followed by
   * a name is that name's full path; so `$path . $nurl` and `getPath($field, $nurl)` agree.
   */
  lemma GetPathExtends(root: string, params: Params, filename: string)
    ensures GetPath(root, params, filename) == GetPath(root, params, "") + filename
  {
  }

  /** Within one field's directory, distinct file names have distinct paths. */
  lemma GetPathInjective(root: string, params: Params, a: string, b: string)
    ensures GetPath(root, params, a) == GetPath(root, params, b) ==> a == b
  {
    var dir := GetPath(root, params, "");
    GetPathExtends(root, params, a);
    GetPathExtends(root, params, b);
    if GetPath(root, params, a) == GetPath(root, params, b) {
      assert a == (dir + a)[|dir|..];
      assert b == (dir + b)[|dir|..];
    }
  }

  /** Without a configured directory, or with an empty one, the file lives under `<root>/images/`. */
  lemma GetPathDefault(root: string, params: Params, filename: string)
    requires params.path.None? || params.path == Wrappers.Some("")
    ensures GetPath(root, params, filename) == root + "/images/" + filename
  {
    TrimUnique(DefaultPath, 0, |DefaultPath|);
  }

  /**
   * Slashes around a configured directory make no difference: `/images/`, `images/` and
   * `images` name the same place, and for a non-empty directory name the path holds no `//`
   * around it. A setting made only of slashes, such as `/`, leaves `dir` empty and gives
   * `<root>//<filename>`.
   */
  lemma GetPathIgnoresEdgeSlashes(root: string, params: Params, dir: string, pre: string, post: string, filename: string)
    requires AllSlashes(pre) && AllSlashes(post)
    requires params.path == Wrappers.Some(pre + dir + post) && pre + dir + post != ""
    requires dir != [] ==> dir[0] != '/' && dir[|dir| - 1] != '/'
    ensures GetPath(root, params, filename) == root + "/" + dir + "/" + filename
  {
    var s := pre + dir + post;
    assert s[..|pre|] == pre;
    assert s[|pre| + |dir|..] == post;
    assert s[|pre|..|pre| + |dir|] == dir;
    TrimUnique(s, |pre|, |pre| + |dir|);
  }
}
