/**
 * Choosing the tile images at startup: keep the directory entries whose
 * lower-cased name ends in ".webp", join each to the directory, and fail
 * when none is left (main.py:53-60).
 */
module Loader {
  import opened Wrappers
  import opened Seqs

  const WEBP := ".webp"
  const NO_IMAGES := "No WEBP images found!"

  /** Lower-casing of one character; only A-Z change. */
  function LowerChar(ch: char): char {
    if 'A' <= ch <= 'Z' then (ch as int - 'A' as int + 'a' as int) as char else ch
  }

  function Lower(s: string): string {
    seq(|s|, i requires 0 <= i < |s| => LowerChar(s[i]))
  }

  predicate EndsWith(s: string, suffix: string) {
    |suffix| <= |s| && s[|s| - |suffix|..] == suffix
  }

  /** The filter's test on one directory entry. */
  predicate IsWebp(name: string) {
    EndsWith(Lower(name), WEBP)
  }

  /** The entries of `names` that pass the filter, in listing order. */
  function WebpNames(names: seq<string>): (kept: seq<string>)
    ensures |kept| <= |names|
    ensures forall n :: n in kept <==> n in names && IsWebp(n)
  {
    if names == [] then []
    else (if IsWebp(names[0]) then [names[0]] else []) + WebpNames(names[1..])
  }

  /** Filtering commutes with concatenating listings, so it keeps the listing order. */
  lemma {:induction false} WebpNamesAppend(a: seq<string>, b: seq<string>)
    ensures WebpNames(a + b) == WebpNames(a) + WebpNames(b)
  {
    if a != [] {
      assert (a + b)[0] == a[0];
      assert (a + b)[1..] == a[1..] + b;
      WebpNamesAppend(a[1..], b);
    } else {
      assert a + b == b;
    }
  }

  /** Filtering twice keeps the same names as filtering once. */
  lemma {:induction false} WebpNamesIdempotent(names: seq<string>)
    ensures WebpNames(WebpNames(names)) == WebpNames(names)
  {
    if names != [] {
      var head := if IsWebp(names[0]) then [names[0]] else [];
      WebpNamesIdempotent(names[1..]);
      WebpNamesAppend(head, WebpNames(names[1..]));
      if head != [] {
        assert head[1..] == [];
      }
    }
  }

  /**
   * A directory listing has no repeated name, and then the filter keeps one
   * entry per matching name: its length is the number of matching names.
   */
  lemma {:induction false} WebpNamesCount(names: seq<string>)
    requires Distinct(names)
    ensures Distinct(WebpNames(names))
    ensures |WebpNames(names)| == |set n | n in names && IsWebp(n)|
  {
    var kept := WebpNames(names);
    if names != [] {
      var rest := names[1..];
      assert Distinct(rest);
      WebpNamesCount(rest);
      assert names[0] !in rest by {
        forall j | 0 <= j < |rest| ensures rest[j] != names[0] {
          assert rest[j] == names[j + 1];
        }
      }
      assert names[0] !in WebpNames(rest);
    }
    assert Elements(kept) == set n | n in names && IsWebp(n);
    DistinctCard(kept);
  }

  /** Lower-casing a name first does not change the filter's verdict. */
  lemma CaseInsensitive(name: string)
    ensures IsWebp(Lower(name)) <==> IsWebp(name)
  {
    assert Lower(Lower(name)) == Lower(name);
  }

  /** POSIX `os.path.join` of a directory and one entry name. */
  function Join(dir: string, name: string): string {
    if |name| > 0 && name[0] == '/' then name
    else if dir == [] || dir[|dir| - 1] == '/' then dir + name
    else dir + "/" + name
  }

  /** Lower-casing works character by character. */
  lemma LowerAppend(a: string, b: string)
    ensures Lower(a + b) == Lower(a) + Lower(b)
  {
  }

  /** A name behind a separator ends in ".webp" exactly when the joined text does. */
  lemma SuffixBehindSlash(prefix: string, name: string)
    requires prefix != [] && prefix[|prefix| - 1] == '/'
    ensures IsWebp(prefix + name) <==> IsWebp(name)
  {
    LowerAppend(prefix, name);
    var lp, ln := Lower(prefix), Lower(name);
    var whole := lp + ln;
    assert Lower(prefix + name) == whole;
    if |ln| >= |WEBP| {
      assert whole[|whole| - |WEBP|..] == ln[|ln| - |WEBP|..];
    } else {
      assert lp[|lp| - 1] == '/';
      if |whole| >= |WEBP| {
        var k := |WEBP| - |ln| - 1;
        assert whole[|whole| - |WEBP|..][k] == '/' != WEBP[k];
      }
    }
  }

  /** Joining an entry to the directory does not change whether it passes the filter. */
  lemma JoinKeepsWebp(dir: string, name: string)
    ensures IsWebp(Join(dir, name)) <==> IsWebp(name)
  {
    if |name| > 0 && name[0] == '/' {
    } else if dir == [] {
      assert dir + name == name;
    } else if dir[|dir| - 1] == '/' {
      SuffixBehindSlash(dir, name);
    } else {
      assert dir + "/" + name == (dir + "/") + name;
      SuffixBehindSlash(dir + "/", name);
    }
  }

  /**
   * The image paths the board loads: one per kept entry, in listing order,
   * or the startup error when the directory holds no ".webp" entry.
   */
  function LoadImages(dir: string, listing: seq<string>): (r: Result<seq<string>, string>)
    ensures r.Failure? <==> forall n :: n in listing ==> !IsWebp(n)
    ensures r.Failure? ==> r.error == NO_IMAGES
    ensures r.Success? ==> |r.value| == |WebpNames(listing)| > 0
    ensures r.Success? ==> forall i :: 0 <= i < |r.value| ==> r.value[i] == Join(dir, WebpNames(listing)[i])
  {
    var kept := WebpNames(listing);
    if kept == [] then
      Failure(NO_IMAGES)
    else
      assert kept[0] in kept;
      Success(seq(|kept|, i requires 0 <= i < |kept| => Join(dir, kept[i])))
  }

  /** Every loaded path names a ".webp" file. */
  lemma LoadedPathsAreWebp(dir: string, listing: seq<string>)
    requires LoadImages(dir, listing).Success?
    ensures forall p :: p in LoadImages(dir, listing).value ==> IsWebp(p)
  {
    var paths := LoadImages(dir, listing).value;
    var kept := WebpNames(listing);
    forall p | p in paths
      ensures IsWebp(p)
    {
      var i :| 0 <= i < |paths| && paths[i] == p;
      assert kept[i] in kept;
      JoinKeepsWebp(dir, kept[i]);
    }
  }
}
