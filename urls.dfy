/**
  Candidate download locations for a book: `gutenberg_text_urls`.

  A mirror stores book `id` under a directory sharded by the digits of the id
  without its last one (`2701` lives under `2/7/0/2701/`). For every variant
  suffix the generator yields one archive (`.zip`) location, then, after all
  archives, one plain-text (`.txt`) location per suffix.
 */
module Urls {

  /** The default mirror. */
  const GutenbergMirror: string := "https://www.gutenberg.org/ebooks"

  /** The default variant suffixes, in the order they are tried. */
  const DefaultSuffixes: seq<string> := ["", "-8", "-0"]

  /** `"/".join(s)`: the characters of `s` with a slash between each two. */
  function JoinChars(s: string): (r: string)
    ensures s == [] ==> r == []
    ensures s != [] ==> |r| == 2 * |s| - 1
    ensures forall k :: 0 <= k < |r| && k % 2 == 0 ==> r[k] == s[k / 2]
    ensures forall k :: 0 <= k < |r| && k % 2 == 1 ==> r[k] == '/'
  {
    if |s| <= 1 then s else [s[0], '/'] + JoinChars(s[1..])
  }

  /** `"/".join(id[:-1]) or "0"`: the shard directory of a book. */
  function ShardPath(id: string): (path: string)
    ensures |id| <= 1 ==> path == "0"
    ensures |id| >= 2 ==> |path| == 2 * |id| - 3
    ensures |id| >= 2 ==> forall k :: 0 <= k < |path| && k % 2 == 0 ==> path[k] == id[k / 2]
    ensures |id| >= 2 ==> forall k :: 0 <= k < |path| && k % 2 == 1 ==> path[k] == '/'
  {
    var joined := JoinChars(if |id| == 0 then id else id[..|id| - 1]);
    if joined == [] then "0" else joined
  }

  /** The characters at even positions: undoes `JoinChars`. */
  function EvenChars(s: string): (r: string)
    ensures |r| == (|s| + 1) / 2
  {
    if s == [] then [] else if |s| == 1 then s else [s[0]] + EvenChars(s[2..])
  }

  lemma {:induction false} EvenCharsJoinChars(s: string)
    ensures EvenChars(JoinChars(s)) == s
  {
    if |s| > 1 {
      EvenCharsJoinChars(s[1..]);
      var j := JoinChars(s);
      assert j == [s[0], '/'] + JoinChars(s[1..]);
      assert j[2..] == JoinChars(s[1..]);
      assert s == [s[0]] + s[1..];
    }
  }

  /** The shard path of an id with two or more characters determines every
      character of the id but the last. */
  lemma ShardPathRecoversPrefix(id: string)
    requires |id| >= 2
    ensures EvenChars(ShardPath(id)) == id[..|id| - 1]
  {
    EvenCharsJoinChars(id[..|id| - 1]);
  }

  /** Single-character ids are stored under directory `0`; `2701` under `2/7/0`. */
  lemma ShardPathExamples()
    ensures ShardPath("1") == "0"
    ensures ShardPath("") == "0"
    ensures ShardPath("2701") == "2/7/0"
  {
    assert "2701"[..3] == "270";
    assert JoinChars("270") == "2/7/0" by {
      assert "270"[1..] == "70";
      assert "70"[1..] == "0";
    }
  }

  /** The f-string `{mirror}/{path}/{id}/{id}{suffix}{ext}`. */
  function Url(mirror: string, path: string, id: string, suffix: string, ext: string): string
  {
    mirror + "/" + path + "/" + id + "/" + id + suffix + ext
  }

  /** One location per suffix, in suffix order, all with extension `ext`
      (the list comprehensions of lines 20 and 21). */
  function UrlsFor(mirror: string, path: string, id: string, suffixes: seq<string>, ext: string): (urls: seq<string>)
    ensures |urls| == |suffixes|
    ensures forall k :: 0 <= k < |suffixes| ==> urls[k] == Url(mirror, path, id, suffixes[k], ext)
  {
    if suffixes == [] then []
    else [Url(mirror, path, id, suffixes[0], ext)] + UrlsFor(mirror, path, id, suffixes[1..], ext)
  }

  /** `gutenberg_text_urls(id, mirror, suffixes)`: every archive location in
      suffix order, then every plain-text location in suffix order, all under
      the shard path of `id`. */
  function GutenbergTextUrls(id: string, mirror: string, suffixes: seq<string>): (urls: seq<string>)
    ensures |urls| == 2 * |suffixes|
    ensures forall k :: 0 <= k < |suffixes| ==>
              urls[k] == Url(mirror, ShardPath(id), id, suffixes[k], ".zip")
    ensures forall k :: 0 <= k < |suffixes| ==>
              urls[|suffixes| + k] == Url(mirror, ShardPath(id), id, suffixes[k], ".txt")
  {
    var path := ShardPath(id);
    UrlsFor(mirror, path, id, suffixes, ".zip") + UrlsFor(mirror, path, id, suffixes, ".txt")
  }

  /** With the defaults, book 2701 has these six candidates, in this order. */
  lemma DefaultCandidatesFor2701()
    ensures GutenbergTextUrls("2701", GutenbergMirror, DefaultSuffixes) == [
              "https://www.gutenberg.org/ebooks/2/7/0/2701/2701.zip",
              "https://www.gutenberg.org/ebooks/2/7/0/2701/2701-8.zip",
              "https://www.gutenberg.org/ebooks/2/7/0/2701/2701-0.zip",
              "https://www.gutenberg.org/ebooks/2/7/0/2701/2701.txt",
              "https://www.gutenberg.org/ebooks/2/7/0/2701/2701-8.txt",
              "https://www.gutenberg.org/ebooks/2/7/0/2701/2701-0.txt"]
  {
    ShardPathExamples();
    hide GutenbergTextUrls, UrlsFor, Url, ShardPath, JoinChars;
    var urls := GutenbergTextUrls("2701", GutenbergMirror, DefaultSuffixes);
    var ss := DefaultSuffixes;
    assert |urls| == 6 && ss[0] == "" && ss[1] == "-8" && ss[2] == "-0";
    assert urls[0] == Url(GutenbergMirror, "2/7/0", "2701", "", ".zip");
    assert urls[1] == Url(GutenbergMirror, "2/7/0", "2701", "-8", ".zip");
    assert urls[2] == Url(GutenbergMirror, "2/7/0", "2701", "-0", ".zip");
    assert urls[3] == Url(GutenbergMirror, "2/7/0", "2701", "", ".txt");
    assert urls[4] == Url(GutenbergMirror, "2/7/0", "2701", "-8", ".txt");
    assert urls[5] == Url(GutenbergMirror, "2/7/0", "2701", "-0", ".txt");
    Url2701("", ".zip", "https://www.gutenberg.org/ebooks/2/7/0/2701/2701.zip");
    Url2701("-8", ".zip", "https://www.gutenberg.org/ebooks/2/7/0/2701/2701-8.zip");
    Url2701("-0", ".zip", "https://www.gutenberg.org/ebooks/2/7/0/2701/2701-0.zip");
    Url2701("", ".txt", "https://www.gutenberg.org/ebooks/2/7/0/2701/2701.txt");
    Url2701("-8", ".txt", "https://www.gutenberg.org/ebooks/2/7/0/2701/2701-8.txt");
    Url2701("-0", ".txt", "https://www.gutenberg.org/ebooks/2/7/0/2701/2701-0.txt");
  }

  lemma Url2701(suffix: string, ext: string, expected: string)
    requires expected == "https://www.gutenberg.org/ebooks/2/7/0/2701/2701" + suffix + ext
    ensures Url(GutenbergMirror, "2/7/0", "2701", suffix, ext) == expected
  {
  }
}
