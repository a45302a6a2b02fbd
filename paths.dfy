/** The string logic on file paths: POSIX `basename` and `join`, the stem
    before the first dot, ASCII lower-casing and the suffix test. */
module Paths {

  /** `os.path.basename` on POSIX: the text after the last '/'. */
  function Basename(p: string): (r: string)
    ensures '/' !in r
    ensures |r| <= |p| && r == p[|p| - |r|..]
    ensures |r| < |p| ==> p[|p| - |r| - 1] == '/'
    decreases |p|
  {
    if |p| == 0 || p[|p| - 1] == '/' then ""
    else Basename(p[..|p| - 1]) + [p[|p| - 1]]
  }

  /** The basename is determined by its contract: the slash-free suffix
      that is either the whole path or preceded by a '/'. */
  lemma BasenameUnique(p: string, r: string)
    requires |r| <= |p| && r == p[|p| - |r|..] && '/' !in r
    requires |r| < |p| ==> p[|p| - |r| - 1] == '/'
    ensures r == Basename(p)
  {
  }

  /** `s.split('.')[0]`: the prefix of `s` before its first '.', or all
      of `s` when it has none. */
  function Stem(s: string): (r: string)
    ensures '.' !in r
    ensures r <= s
    ensures |r| < |s| ==> s[|r|] == '.'
    decreases |s|
  {
    if |s| == 0 || s[0] == '.' then ""
    else [s[0]] + Stem(s[1..])
  }

  /** The stem is a prefix, so it holds no character the text lacks
      (in particular no '/' when taken of a basename). */
  lemma StemKeepsOut(s: string, c: char)
    requires c !in s
    ensures c !in Stem(s)
  {
  }

  const Suffix: string := "_face.jpg"

  /** The name of the crop written for `imagePath`: the basename cut at its
      first '.', followed by "_face.jpg". It has no '/' and ends in
      "_face.jpg". */
  function OutputName(imagePath: string): (name: string)
    ensures '/' !in name
    ensures |Suffix| <= |name| && name[|name| - |Suffix|..] == Suffix
  {
    var base := Basename(imagePath);
    var stem := Stem(base);
    StemKeepsOut(base, '/');
    NoSlashInConcat(stem, Suffix);
    assert (stem + Suffix)[|stem|..] == Suffix;
    stem + Suffix
  }

  /** The output name is a stem followed by "_face.jpg", where the stem is
      the basename cut at its first '.': a prefix of the basename with no
      '.' and no '/', which is the whole basename or is followed there by a
      '.'. */
  lemma OutputNameExactly(imagePath: string)
    ensures var base := Basename(imagePath);
            exists stem :: OutputName(imagePath) == stem + Suffix && '.' !in stem && '/' !in stem &&
                           stem <= base && (|stem| < |base| ==> base[|stem|] == '.')
  {
    var base := Basename(imagePath);
    StemKeepsOut(base, '/');
    assert OutputName(imagePath) == Stem(base) + Suffix;
  }

  lemma NoSlashInConcat(a: string, b: string)
    requires '/' !in a && '/' !in b
    ensures '/' !in a + b
  {
  }

  /** `os.path.join(a, b)` on POSIX: an absolute `b` replaces `a`; otherwise
      `b` is appended, with a '/' in between unless `a` is empty or already
      ends in one. */
  function Join(a: string, b: string): (r: string)
    ensures r == b || r == a + b || r == a + "/" + b
    ensures |b| > 0 && b[0] == '/' ==> r == b
  {
    if |b| > 0 && b[0] == '/' then b
    else if |a| == 0 || a[|a| - 1] == '/' then a + b
    else a + "/" + b
  }

  /** The output path sits directly under the output directory: the name
      has no '/', so `join` appends it, adding a separator exactly when the
      directory is non-empty and does not already end in one. */
  lemma OutputPathInDirectory(dir: string, imagePath: string)
    ensures '/' !in OutputName(imagePath)
    ensures (|dir| == 0 || dir[|dir| - 1] == '/') ==> Join(dir, OutputName(imagePath)) == dir + OutputName(imagePath)
    ensures |dir| > 0 && dir[|dir| - 1] != '/' ==> Join(dir, OutputName(imagePath)) == dir + "/" + OutputName(imagePath)
  {
    var name := OutputName(imagePath);
    assert |name| > 0 && name[0] in name;
  }

  /** `str.lower()` restricted to ASCII: 'A'..'Z' map to 'a'..'z'. */
  function LowerChar(c: char): (d: char)
    ensures 'A' <= c <= 'Z' ==> 'a' <= d <= 'z' && d as int - c as int == 32
    ensures !('A' <= c <= 'Z') ==> d == c
  {
    if 'A' <= c <= 'Z' then (c as int + 32) as char else c
  }

  function Lower(s: string): (r: string)
    ensures |r| == |s|
    ensures forall i :: 0 <= i < |s| ==> r[i] == LowerChar(s[i])
  {
    seq(|s|, i requires 0 <= i < |s| => LowerChar(s[i]))
  }

  lemma LowerAppend(s: string, t: string)
    ensures Lower(s + t) == Lower(s) + Lower(t)
  {
  }

  /** `s.endswith(suffix)`. */
  predicate EndsWith(s: string, suffix: string)
  {
    |suffix| <= |s| && s[|s| - |suffix|..] == suffix
  }

  /** `s` ends with `suffix` exactly when it is some text followed by
      `suffix`. */
  lemma EndsWithExactly(s: string, suffix: string)
    ensures EndsWith(s, suffix) <==> exists prefix :: s == prefix + suffix
  {
    if EndsWith(s, suffix) {
      assert s == s[..|s| - |suffix|] + suffix;
    }
    if exists prefix :: s == prefix + suffix {
      var prefix :| s == prefix + suffix;
      assert s[|s| - |suffix|..] == suffix;
    }
  }

  /** The extensions of the tuple handed to `endswith`. */
  const ImageExtensions: seq<string> := [".jpg", ".jpeg", ".png"]

  /** The test `path.lower().endswith(('.jpg', '.jpeg', '.png'))`: the
      lower-cased path ends with one of the tuple's extensions. */
  predicate HasImageExtension(path: string)
    ensures HasImageExtension(path) ==> 4 <= |path|
  {
    var l := Lower(path);
    EndsWith(l, ImageExtensions[0]) || EndsWith(l, ImageExtensions[1]) || EndsWith(l, ImageExtensions[2])
  }

  /** The test ignores case in the extension: any name followed by an
      extension whose lower-cased form is in the tuple (".JPG", ".Jpeg",
      ".pNg", ...) is taken as an image. */
  lemma ExtensionCaseInsensitive(stem: string, e: string)
    requires Lower(e) in ImageExtensions
    ensures HasImageExtension(stem + e)
  {
    LowerAppend(stem, e);
    var l := Lower(stem + e);
    assert l[|l| - |e|..] == Lower(e);
  }

  /** A suffix without '/' cannot reach back across a '/' at the end of
      `pre`, so `pre + name` ends with it exactly when `name` does. */
  lemma SuffixAfterSlash(pre: string, name: string, ext: string)
    requires |pre| > 0 && pre[|pre| - 1] == '/' && '/' !in ext
    ensures EndsWith(Lower(pre + name), ext) <==> EndsWith(Lower(name), ext)
  {
    LowerAppend(pre, name);
    var lp, ln := Lower(pre), Lower(name);
    if |ext| <= |name| {
      SuffixOfConcat(lp, ln, |ext|);
    } else if |ext| <= |lp| + |ln| {
      var l := lp + ln;
      var i := |ext| - |name| - 1;
      assert lp[|pre| - 1] == '/';
      assert l[|l| - |ext|..][i] == '/';
      assert ext[i] != '/';
    }
  }

  /** Helper: a suffix no longer than `b` of `a + b` is a suffix of `b`. */
  lemma SuffixOfConcat(a: string, b: string, k: nat)
    requires k <= |b|
    ensures (a + b)[|a| + |b| - k..] == b[|b| - k..]
  {
  }

  /** Whether a listed entry is taken as an image does not depend on the
      directory it is joined to: the extension test on the joined path
      agrees with the test on the entry's own name. */
  lemma JoinKeepsExtension(dir: string, name: string)
    ensures HasImageExtension(Join(dir, name)) <==> HasImageExtension(name)
  {
    if |name| > 0 && name[0] == '/' {
    } else if |dir| == 0 {
      assert dir + name == name;
    } else if dir[|dir| - 1] == '/' {
      SuffixAfterSlash(dir, name, ".jpg");
      SuffixAfterSlash(dir, name, ".jpeg");
      SuffixAfterSlash(dir, name, ".png");
    } else {
      var pre := dir + "/";
      assert Join(dir, name) == pre + name;
      SuffixAfterSlash(pre, name, ".jpg");
      SuffixAfterSlash(pre, name, ".jpeg");
      SuffixAfterSlash(pre, name, ".png");
    }
  }

  /** Upper-case extensions are accepted: "PHOTO.JPG" is an image. */
  lemma UpperCaseExtensionAccepted()
    ensures HasImageExtension("PHOTO.JPG")
    ensures !HasImageExtension("notes.txt")
  {
    var up := Lower("PHOTO.JPG");
    assert up[5] == '.' && up[6] == 'j' && up[7] == 'p' && up[8] == 'g';
    assert up[5..] == ".jpg";
    var txt := Lower("notes.txt");
    assert txt[8] == 't';
    assert txt[5..][3] == 't' && txt[4..][4] == 't';
  }
}
