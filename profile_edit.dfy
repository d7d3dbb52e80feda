/**
 * The hall-of-fame profile editor: link normalisation, the row update it saves, and
 * the avatar upload that replaces the image URL. Storage and database results and
 * `Date.now()` are parameters.
 */
module ProfileEdit {
  import opened Wrappers
  import opened Text
  import opened Schema

  /** A stored link: a non-empty http(s) URL without surrounding whitespace. */
  predicate IsWebUrl(s: string)
  {
    s != "" && (StartsWith(s, "http://") || StartsWith(s, "https://")) && Trimmed(s)
  }

  /**
   * `normalizeUrl`: blank input becomes "", an input that already names an http(s)
   * scheme is only trimmed, anything else is trimmed and given an "https://" prefix.
   */
  function NormalizeUrl(url: string): (r: string)
    ensures r == "" <==> Blank(url)
    ensures r != "" ==> IsWebUrl(r)
  {
    TrimEmptyIffBlank(url);
    if url == "" || Trim(url) == "" then ""
    else
      var trimmed := Trim(url);
      if StartsWith(trimmed, "http://") || StartsWith(trimmed, "https://") then trimmed
      else
        HttpsPrefixIsWebUrl(trimmed);
        "https://" + trimmed
  }

  /** Putting "https://" in front of a non-empty trimmed text gives a web URL. */
  lemma HttpsPrefixIsWebUrl(t: string)
    requires t != "" && Trimmed(t)
    ensures IsWebUrl("https://" + t)
  {
    var r := "https://" + t;
    assert r[0] == 'h' && r[|r| - 1] == t[|t| - 1];
    assert r[..8] == "https://";
  }

  /** A trimmed input that already names an http(s) scheme comes back trimmed and otherwise unchanged. */
  lemma NormalizeKeepsScheme(url: string)
    requires StartsWith(Trim(url), "http://") || StartsWith(Trim(url), "https://")
    ensures NormalizeUrl(url) == Trim(url)
  {
  }

  /** Any other non-blank input is the trimmed input behind "https://". */
  lemma NormalizeAddsHttps(url: string)
    requires !Blank(url)
    requires !StartsWith(Trim(url), "http://") && !StartsWith(Trim(url), "https://")
    ensures NormalizeUrl(url) == "https://" + Trim(url)
  {
    TrimEmptyIffBlank(url);
  }

  /** A stored link is its own normal form. */
  lemma NormalizeFixesWebUrl(s: string)
    requires IsWebUrl(s)
    ensures NormalizeUrl(s) == s
  {
    TrimOfTrimmed(s);
    assert !IsWhitespace(s[0]);
    assert !Blank(s);
  }

  /** Normalising a normalised link changes nothing. */
  lemma NormalizeIdempotent(url: string)
    ensures NormalizeUrl(NormalizeUrl(url)) == NormalizeUrl(url)
  {
    var r := NormalizeUrl(url);
    if r == "" {
      assert Blank(r);
    } else {
      NormalizeFixesWebUrl(r);
    }
  }

  /** A bare host name gains "https://". */
  lemma NormalizeExampleHost()
    ensures NormalizeUrl("example.com") == "https://example.com"
  {
    NormalizeBareHost();
    HttpsHostLiteral();
  }

  /** A step of the example lemmas: the literal concatenation behind `NormalizeExampleHost`. */
  lemma HttpsHostLiteral()
    ensures "https://" + "example.com" == "https://example.com"
  {
  }

  /** A step of the example lemmas: the bare host takes the "https://" branch. */
  lemma NormalizeBareHost()
    ensures NormalizeUrl("example.com") == "https://" + "example.com"
  {
    BareHostHasNoScheme();
    TrimOfTrimmed("example.com");
    NormalizeOfTrim("example.com");
  }

  /** A step of the example lemmas: the bare host is trimmed and has no scheme. */
  lemma BareHostHasNoScheme()
    ensures Trimmed("example.com")
    ensures !StartsWith("example.com", "http://") && !StartsWith("example.com", "https://")
  {
    var s := "example.com";
    assert s[0] == 'e' && s[|s| - 1] == 'm';
    assert s[..7][0] == 'e' && s[..8][0] == 'e';
  }

  /** The normal form of a link depends only on its trimmed text. */
  lemma NormalizeOnlySeesTrim(a: string, b: string)
    requires Trim(a) == Trim(b)
    ensures NormalizeUrl(a) == NormalizeUrl(b)
  {
    NormalizeOfTrim(a);
    NormalizeOfTrim(b);
  }

  /** The empty-input test is subsumed by the blank test. */
  lemma NormalizeOfTrim(url: string)
    ensures var t := Trim(url);
      NormalizeUrl(url) == if t == "" then "" else if StartsWith(t, "http://") || StartsWith(t, "https://") then t else "https://" + t
  {
  }

  /** Surrounding blanks are dropped before the prefix is added. */
  lemma NormalizeExamplePadded()
    ensures NormalizeUrl("  example.com ") == "https://example.com"
  {
    PaddedHostTrims();
    NormalizeOnlySeesTrim("  example.com ", "example.com");
    NormalizeExampleHost();
  }

  /** A step of the example lemmas: the padded host trims to the bare host. */
  lemma PaddedHostTrims()
    ensures Trim("  example.com ") == Trim("example.com")
  {
    BareHostHasNoScheme();
    TrimOfTrimmed("example.com");
    assert Blank("  ") && Blank(" ");
    TrimPadded("  ", "example.com", " ");
    PaddedHostLiteral();
  }

  /** A step of the example lemmas: the literal concatenation behind `PaddedHostTrims`. */
  lemma PaddedHostLiteral()
    ensures "  " + "example.com" + " " == "  example.com "
  {
  }

  /** An https URL is kept as it is. */
  lemma NormalizeExampleHttps()
    ensures NormalizeUrl("https://x.com") == "https://x.com"
  {
    assert "https://x.com"[..8] == "https://";
    NormalizeFixesWebUrl("https://x.com");
  }

  /** Empty and whitespace-only input normalise to "". */
  lemma NormalizeExampleBlank()
    ensures NormalizeUrl("") == ""
    ensures NormalizeUrl(" \t") == ""
  {
    assert Blank(" \t");
  }

  /** The row update `handleSave` sends, keyed by the profile id. */
  datatype ProfileUpdate = ProfileUpdate(
    name: string,
    imageUrl: Option<string>,
    socialLink1: Option<string>,
    socialLink2: Option<string>)

  /** A stored link is absent or a web URL; it is never the empty string. */
  predicate StoredLink(link: Option<string>)
  {
    link.None? || IsWebUrl(link.value)
  }

  /**
   * The save payload: the name as typed, the image URL or null, and each link
   * normalised, with null in place of an empty result.
   */
  function SavePayload(name: string, imageUrl: string, link1: string, link2: string): (u: ProfileUpdate)
    ensures u.name == name
    ensures u.imageUrl.None? <==> imageUrl == ""
    ensures u.imageUrl.Some? ==> u.imageUrl.value == imageUrl
    ensures StoredLink(u.socialLink1) && StoredLink(u.socialLink2)
    ensures u.socialLink1.None? <==> Blank(link1)
    ensures u.socialLink2.None? <==> Blank(link2)
    ensures u.socialLink1.Some? ==> u.socialLink1.value == NormalizeUrl(link1)
    ensures u.socialLink2.Some? ==> u.socialLink2.value == NormalizeUrl(link2)
  {
    ProfileUpdate(name, NullIfEmpty(imageUrl), NullIfEmpty(NormalizeUrl(link1)), NullIfEmpty(NormalizeUrl(link2)))
  }

  /** The link a field shows when the dialog opens: `link || ''`. */
  function FieldText(link: Option<string>): string
  {
    link.GetOr("")
  }

  /** A profile whose stored values are already in the form a save produces. */
  predicate SavedForm(p: HallOfFameProfile)
  {
    p.imageUrl != Some("") && StoredLink(p.socialLink1) && StoredLink(p.socialLink2)
  }

  /** Opening the editor on a saved profile and saving without edits writes back what was stored. */
  lemma SaveUnchangedRoundTrip(p: HallOfFameProfile)
    requires SavedForm(p)
    ensures SavePayload(p.name, FieldText(p.imageUrl), FieldText(p.socialLink1), FieldText(p.socialLink2))
         == ProfileUpdate(p.name, p.imageUrl, p.socialLink1, p.socialLink2)
  {
    StoredLinkIsFixed(p.socialLink1);
    StoredLinkIsFixed(p.socialLink2);
  }

  /** A stored link survives a trip through its text field and the normaliser. */
  lemma StoredLinkIsFixed(link: Option<string>)
    requires StoredLink(link)
    ensures NullIfEmpty(NormalizeUrl(FieldText(link))) == link
  {
    if link.Some? {
      NormalizeFixesWebUrl(link.value);
    }
  }

  /** The avatar's storage name: `${profile.id}-${Date.now()}.${extension}`. */
  function AvatarFileName(profileId: string, stamp: string, fileName: string): string
  {
    profileId + "-" + stamp + "." + AfterLastDot(fileName)
  }

  /** The avatar keeps the uploaded file's extension, behind a dot. */
  lemma AvatarFileNameKeepsExtension(profileId: string, stamp: string, fileName: string)
    ensures AfterLastDot(AvatarFileName(profileId, stamp, fileName)) == AfterLastDot(fileName)
    ensures |AfterLastDot(AvatarFileName(profileId, stamp, fileName))| < |AvatarFileName(profileId, stamp, fileName)|
  {
    AfterLastDotOfJoin(profileId + "-" + stamp, AfterLastDot(fileName));
  }

  class EditProfileDialog {
    const profileId: string
    var name: string
    var socialLink1: string
    var socialLink2: string
    var uploading: bool
    var saving: bool
    var imageUrl: string

    /** The dialog's fields start from the profile, with null shown as "". */
    constructor (profile: HallOfFameProfile)
      ensures profileId == profile.id && name == profile.name
      ensures socialLink1 == FieldText(profile.socialLink1) && socialLink2 == FieldText(profile.socialLink2)
      ensures imageUrl == FieldText(profile.imageUrl)
      ensures !uploading && !saving
    {
      profileId := profile.id;
      name := profile.name;
      socialLink1 := FieldText(profile.socialLink1);
      socialLink2 := FieldText(profile.socialLink2);
      imageUrl := FieldText(profile.imageUrl);
      uploading, saving := false, false;
    }

    /**
     * The avatar file input. Without a file nothing happens. Otherwise the file is
     * stored under `AvatarFileName`; on success the image URL becomes that path's
     * public URL, and `uploading` is cleared whatever the outcome.
     */
    method HandleImageUpload(fileName: Option<string>, stamp: string, uploadOk: bool,
                             publicUrlOf: string -> string) returns (path: Option<string>)
      modifies this`uploading, this`imageUrl
      ensures fileName.None? ==> path.None? && unchanged(this)
      ensures fileName.Some? ==>
        && path == Some(AvatarFileName(profileId, stamp, fileName.value))
        && !uploading
        && imageUrl == (if uploadOk then publicUrlOf(path.value) else old(imageUrl))
    {
      if fileName.None? {
        return None;
      }
      uploading := true;
      var filePath := AvatarFileName(profileId, stamp, fileName.value);
      path := Some(filePath);
      if uploadOk {
        imageUrl := publicUrlOf(filePath);
      }
      uploading := false;
    }

    /**
     * The save button: sends `SavePayload` of the current fields for this profile's id;
     * the dialog closes only when the update succeeded, and `saving` is cleared either way.
     */
    method HandleSave(updateOk: bool) returns (update: ProfileUpdate, close: bool)
      modifies this`saving
      ensures update == SavePayload(name, imageUrl, socialLink1, socialLink2)
      ensures close == updateOk
      ensures !saving
    {
      saving := true;
      update := SavePayload(name, imageUrl, socialLink1, socialLink2);
      close := updateOk;
      saving := false;
    }
  }
}
