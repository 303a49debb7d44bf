/** The content-type resolver: a case-sensitive table from file-name suffix
    to MIME type, with `application/octet-stream` for everything else. */
module ContentTypes {
  import opened Util

  const TextHtml := "text/html"
  const ImageJpeg := "image/jpeg"
  const ImagePng := "image/png"
  const ImageGif := "image/gif"
  const OctetStream := "application/octet-stream"

  /** The MIME type the server announces for `fileName`. Suffixes are
      compared case-sensitively; `.JPG` is the only upper-case one known. */
  function ContentType(fileName: string): (r: string)
    ensures r in {TextHtml, ImageJpeg, ImagePng, ImageGif, OctetStream}
  {
    if EndsWith(fileName, ".html") || EndsWith(fileName, ".htm") then TextHtml
    else if EndsWith(fileName, ".jpg") || EndsWith(fileName, ".jpeg") || EndsWith(fileName, ".JPG") then ImageJpeg
    else if EndsWith(fileName, ".png") then ImagePng
    else if EndsWith(fileName, ".gif") then ImageGif
    else OctetStream
  }

  /** The same mapping written as a table of (suffix, type) rows. */
  const SuffixTable: seq<(string, string)> := [
    (".html", TextHtml), (".htm", TextHtml),
    (".jpg", ImageJpeg), (".jpeg", ImageJpeg), (".JPG", ImageJpeg),
    (".png", ImagePng),
    (".gif", ImageGif)
  ]

  /** The type of the first row whose suffix ends `fileName`, if any. */
  function LookupSuffix(table: seq<(string, string)>, fileName: string): (r: string)
    ensures r == OctetStream || exists k :: 0 <= k < |table| && r == table[k].1
    decreases |table|
  {
    if table == [] then OctetStream
    else if EndsWith(fileName, table[0].0) then table[0].1
    else LookupSuffix(table[1..], fileName)
  }

  /** The resolver agrees with the table on every file name. */
  lemma ContentTypeIsTableLookup(fileName: string)
    ensures ContentType(fileName) == LookupSuffix(SuffixTable, fileName)
  {
    var f, t := fileName, SuffixTable;
    assert LookupSuffix(t[7..], f) == OctetStream by { assert t[7..] == []; }
    assert LookupSuffix(t[6..], f) == if EndsWith(f, ".gif") then ImageGif else OctetStream by {
      assert t[6..][0] == (".gif", ImageGif) && t[6..][1..] == t[7..];
    }
    assert LookupSuffix(t[5..], f) == if EndsWith(f, ".png") then ImagePng else LookupSuffix(t[6..], f) by {
      assert t[5..][0] == (".png", ImagePng) && t[5..][1..] == t[6..];
    }
    assert LookupSuffix(t[4..], f) == if EndsWith(f, ".JPG") then ImageJpeg else LookupSuffix(t[5..], f) by {
      assert t[4..][0] == (".JPG", ImageJpeg) && t[4..][1..] == t[5..];
    }
    assert LookupSuffix(t[3..], f) == if EndsWith(f, ".jpeg") then ImageJpeg else LookupSuffix(t[4..], f) by {
      assert t[3..][0] == (".jpeg", ImageJpeg) && t[3..][1..] == t[4..];
    }
    assert LookupSuffix(t[2..], f) == if EndsWith(f, ".jpg") then ImageJpeg else LookupSuffix(t[3..], f) by {
      assert t[2..][0] == (".jpg", ImageJpeg) && t[2..][1..] == t[3..];
    }
    assert LookupSuffix(t[1..], f) == if EndsWith(f, ".htm") then TextHtml else LookupSuffix(t[2..], f) by {
      assert t[1..][0] == (".htm", TextHtml) && t[1..][1..] == t[2..];
    }
    assert LookupSuffix(t, f) == if EndsWith(f, ".html") then TextHtml else LookupSuffix(t[1..], f) by {
      assert t[0] == (".html", TextHtml);
    }
  }

  /** The last two characters of a string that has at least two. */
  function LastTwo(s: string): (char, char)
    requires |s| >= 2
  {
    (s[|s| - 2], s[|s| - 1])
  }

  lemma EndsWithLastTwo(fileName: string, suffix: string)
    requires |suffix| >= 2 && EndsWith(fileName, suffix)
    ensures |fileName| >= 2 && LastTwo(fileName) == LastTwo(suffix)
  {
    var n, m := |fileName|, |suffix|;
    assert fileName[n - m..][m - 1] == fileName[n - 1];
    assert fileName[n - m..][m - 2] == fileName[n - 2];
  }

  /** No file name ends with two different suffixes of the table, so the
      order in which the resolver tries them does not matter. */
  lemma SuffixesExclusive(fileName: string, i: nat, j: nat)
    requires i < |SuffixTable| && j < |SuffixTable|
    requires EndsWith(fileName, SuffixTable[i].0) && EndsWith(fileName, SuffixTable[j].0)
    ensures i == j
  {
    var ends := [('m', 'l'), ('t', 'm'), ('p', 'g'), ('e', 'g'), ('P', 'G'), ('n', 'g'), ('i', 'f')];
    assert LastTwo(SuffixTable[i].0) == ends[i] && LastTwo(SuffixTable[j].0) == ends[j] by {
      var t := SuffixTable;
      assert LastTwo(t[0].0) == ends[0] && LastTwo(t[1].0) == ends[1] && LastTwo(t[2].0) == ends[2];
      assert LastTwo(t[3].0) == ends[3] && LastTwo(t[4].0) == ends[4] && LastTwo(t[5].0) == ends[5];
      assert LastTwo(t[6].0) == ends[6];
    }
    EndsWithLastTwo(fileName, SuffixTable[i].0);
    EndsWithLastTwo(fileName, SuffixTable[j].0);
  }

  /** A name whose last two characters differ from a suffix's does not end with it. */
  lemma NotEndsWith(fileName: string, suffix: string)
    requires |fileName| >= 2 && |suffix| >= 2 && LastTwo(fileName) != LastTwo(suffix)
    ensures !EndsWith(fileName, suffix)
  {
    if EndsWith(fileName, suffix) {
      EndsWithLastTwo(fileName, suffix);
    }
  }

  /** The suffix checks are case-sensitive: `.JPG` is the one upper-case
      suffix the table knows, so `.JPEG` and `.PNG` fall through. */
  lemma UpperCaseJpgIsJpeg()
    ensures ContentType("photo.JPG") == ImageJpeg
  {
    var n := "photo.JPG";
    NotEndsWith(n, ".html");
    NotEndsWith(n, ".htm");
    NotEndsWith(n, ".jpg");
    NotEndsWith(n, ".jpeg");
    assert n[5..] == ".JPG";
  }

  lemma UpperCaseJpegIsUnknown()
    ensures ContentType("photo.JPEG") == OctetStream
  {
    var n := "photo.JPEG";
    NotEndsWith(n, ".html");
    NotEndsWith(n, ".htm");
    NotEndsWith(n, ".jpg");
    NotEndsWith(n, ".jpeg");
    NotEndsWith(n, ".JPG");
    NotEndsWith(n, ".png");
    NotEndsWith(n, ".gif");
  }

  lemma UpperCasePngIsUnknown()
    ensures ContentType("logo.PNG") == OctetStream
  {
    var n := "logo.PNG";
    NotEndsWith(n, ".html");
    NotEndsWith(n, ".htm");
    NotEndsWith(n, ".jpg");
    NotEndsWith(n, ".jpeg");
    NotEndsWith(n, ".JPG");
    NotEndsWith(n, ".png");
    NotEndsWith(n, ".gif");
  }

  /** The name `java.io.File.getName()` reports: what follows the last `/`. */
  function FileName(path: string): (r: string)
    ensures EndsWith(path, r) && '/' !in r
    ensures |r| < |path| ==> path[|path| - |r| - 1] == '/'
    decreases |path|
  {
    if path == [] || path[|path| - 1] == '/' then []
    else FileName(path[..|path| - 1]) + [path[|path| - 1]]
  }

  /** A suffix without `/` ends the file name exactly when it ends the path. */
  lemma EndsWithFileName(path: string, suffix: string)
    requires '/' !in suffix
    ensures EndsWith(FileName(path), suffix) <==> EndsWith(path, suffix)
  {
    var r := FileName(path);
    if |suffix| <= |r| {
      assert path[|path| - |suffix|..] == r[|r| - |suffix|..] by {
        assert path[|path| - |r|..] == r;
      }
    }
  }

  /** Resolving on the whole path gives what resolving on its last component gives. */
  lemma ContentTypeOfFileName(path: string)
    ensures ContentType(FileName(path)) == ContentType(path)
  {
    EndsWithFileName(path, ".html");
    EndsWithFileName(path, ".htm");
    EndsWithFileName(path, ".jpg");
    EndsWithFileName(path, ".jpeg");
    EndsWithFileName(path, ".JPG");
    EndsWithFileName(path, ".png");
    EndsWithFileName(path, ".gif");
  }

  /** The last component of `dir + "/" + name` is `name` when `name` holds no `/`. */
  lemma {:induction false} FileNameAfterSlash(dir: string, name: string)
    requires '/' !in name
    ensures FileName(dir + "/" + name) == name
    decreases |name|
  {
    var p := dir + "/" + name;
    if name != [] {
      var init := name[..|name| - 1];
      assert p[..|p| - 1] == dir + "/" + init;
      assert p[|p| - 1] == name[|name| - 1];
      FileNameAfterSlash(dir, init);
      assert init + [name[|name| - 1]] == name;
    }
  }
}
