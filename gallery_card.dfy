/**
 * A gallery tile: whether its URL names a video (`/\.(mp4|webm|ogg)$/i`) and what the
 * tile shows for it.
 */
module GalleryCard {
  import opened Wrappers
  import opened Text
  import opened Schema

  /** The extensions the video pattern lists, lower-case. */
  predicate IsVideoExtension(ext: string)
  {
    ext == "mp4" || ext == "webm" || ext == "ogg"
  }

  /** `url` ends with '.' and then `ext` in any ASCII letter case. */
  predicate EndsWithExtension(url: string, ext: string)
  {
    |url| > |ext| && url[|url| - |ext| - 1] == '.' && LowerAscii(url[|url| - |ext|..]) == ext
  }

  /**
   * `/\.(mp4|webm|ogg)$/i` matches: the pattern is anchored at the end of the string and
   * `i` without `u` folds ASCII letters only.
   */
  predicate IsVideo(url: string)
  {
    EndsWithExtension(url, "mp4") || EndsWithExtension(url, "webm") || EndsWithExtension(url, "ogg")
  }

  /** The characters of the listed extensions: ASCII lower-case letters and '4'. */
  lemma VideoExtensionHasNoDot(ext: string, s: string)
    requires IsVideoExtension(ext) && LowerAscii(s) == ext
    ensures NoDot(s)
  {
    forall i | 0 <= i < |s| ensures s[i] != '.' {
      assert LowerAscii(s)[i] == ext[i];
    }
  }

  /**
   * The pattern read another way: a URL is a video exactly when it has a dot and the text
   * after its last dot, lower-cased, is mp4, webm or ogg.
   */
  lemma IsVideoByLastExtension(url: string)
    ensures IsVideo(url) <==>
      |AfterLastDot(url)| < |url| && IsVideoExtension(LowerAscii(AfterLastDot(url)))
  {
    if IsVideo(url) {
      VideoHasVideoExtension(url);
    }
    var e := AfterLastDot(url);
    if |e| < |url| && IsVideoExtension(LowerAscii(e)) {
      assert EndsWithExtension(url, LowerAscii(e));
    }
  }

  lemma VideoHasVideoExtension(url: string)
    requires IsVideo(url)
    ensures |AfterLastDot(url)| < |url| && IsVideoExtension(LowerAscii(AfterLastDot(url)))
  {
    var ext := if EndsWithExtension(url, "mp4") then "mp4"
               else if EndsWithExtension(url, "webm") then "webm" else "ogg";
    var k := |url| - |ext| - 1;
    var tail := url[k + 1..];
    VideoExtensionHasNoDot(ext, tail);
    assert url == url[..k] + "." + tail;
    AfterLastDotOfJoin(url[..k], tail);
  }

  /** No listed extension contains '?' or '#'. */
  lemma SeparatorNotInExtension(s: string, i: nat)
    requires i < |s| && (s[i] == '?' || s[i] == '#')
    ensures !IsVideoExtension(s)
  {
  }

  /**
   * A query string or fragment after the file name (whose text has no dot) makes the URL
   * a non-video, even when the path ends in ".mp4".
   */
  lemma QueryOrFragmentDefeatsVideo(path: string, sep: char, rest: string)
    requires sep == '?' || sep == '#'
    requires NoDot(rest)
    ensures !IsVideo(path + [sep] + rest)
  {
    var url := path + [sep] + rest;
    var tail := [sep] + rest;
    assert url == path + tail;
    assert NoDot(tail) by { assert tail[0] == sep; }
    AfterLastDotAppend(path, tail);
    var e := AfterLastDot(url);
    var at := |AfterLastDot(path)|;
    assert e == AfterLastDot(path) + tail;
    assert e[at] == sep;
    assert LowerAscii(e)[at] == sep;
    SeparatorNotInExtension(LowerAscii(e), at);
    IsVideoByLastExtension(url);
  }

  /** The pattern on a few URLs. */
  lemma IsVideoExamples()
    ensures IsVideo("clip.MP4")
    ensures IsVideo("a.b.webm")
    ensures !IsVideo("mp4")
    ensures !IsVideo("clip.mp4?raw=1")
  {
    assert LowerAscii("clip.MP4"[5..]) == "mp4";
    assert LowerAscii("a.b.webm"[4..]) == "webm";
    QueryOrFragmentDefeatsVideo("clip.mp4", '?', "raw=1");
    assert "clip.mp4" + ['?'] + "raw=1" == "clip.mp4?raw=1";
  }

  datatype MediaElement = VideoElement(src: string) | ImageElement(src: string, alt: string)

  /** What a tile shows: its media, its title and, when there is one, its description. */
  datatype CardView = CardView(media: MediaElement, heading: string, caption: Option<string>)

  /**
   * The tile: a video element for a video URL, otherwise an image whose alt text is the
   * title; the title always, the description only when it is non-null and non-empty.
   */
  function RenderCard(image: string, title: string, description: Option<string>): (card: CardView)
    ensures card.media.src == image
    ensures card.media.VideoElement? <==> IsVideo(image)
    ensures card.media.ImageElement? ==> card.media.alt == title
    ensures card.heading == title
    ensures card.caption.Some? <==> Present(description)
    ensures card.caption.Some? ==> card.caption == description
  {
    CardView(
      if IsVideo(image) then VideoElement(image) else ImageElement(image, title),
      title,
      if Present(description) then description else None)
  }
}
