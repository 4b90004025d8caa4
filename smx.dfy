/**
 * The StepManiaX jacket lookup of bots/smxbot.py: the song title becomes a
 * path segment of the StepManiaX data site, and the site's reply is
 * classified by its content type. The HTTP request is left out; its reply
 * is an input.
 */
module StepManiaX {
  import opened Wrappers
  import opened Text

  /** `[word.capitalize() for word in words]`. */
  function CapitalizeAll(words: seq<string>): (r: seq<string>)
    ensures |r| == |words|
    ensures forall i :: 0 <= i < |words| ==> r[i] == Capitalize(words[i])
  {
    seq(|words|, i requires 0 <= i < |words| => Capitalize(words[i]))
  }

  /** `''.join(word.capitalize() for word in query.split())`. */
  function Titled(query: string): string {
    Concat(CapitalizeAll(Words(query)))
  }

  /** The title as a path segment: capitalised words run together, "&" removed, "Stop!Go" in capitals. */
  function Slug(query: string): string {
    var titled := RemoveChar(Titled(query), '&');
    if titled == "Stop!Go" then Upper(titled) else titled
  }

  const SongsBase := "https://data.stepmaniax.com/" + "uploads/songs/"
  const CoverFile := "/cover.png"

  /** The address of a song's jacket. */
  function JacketUrl(query: string): string {
    SongsBase + Slug(query) + CoverFile
  }

  // ---------------------------------------------------------------------
  // What the slug is.
  // ---------------------------------------------------------------------

  /** Capitalising only changes case. */
  lemma CapitalizeLower(s: string)
    ensures Lower(Capitalize(s)) == Lower(s)
  {
    if |s| > 0 {
      LowerCapitalize(s);
    }
  }

  /** Lower-casing a run of words is running their lower-cased forms together. */
  lemma {:induction false} LowerConcatAll(words: seq<string>)
    ensures Lower(Concat(CapitalizeAll(words))) == Lower(Concat(words))
    decreases |words|
  {
    if |words| > 0 {
      LowerConcatAll(words[1..]);
      assert CapitalizeAll(words)[1..] == CapitalizeAll(words[1..]);
      LowerConcat(Capitalize(words[0]), Concat(CapitalizeAll(words[1..])));
      LowerConcat(words[0], Concat(words[1..]));
      CapitalizeLower(words[0]);
    }
  }

  /** Removing "&" and lower-casing commute, "&" being no letter. */
  lemma {:induction false} LowerRemoveAmpersand(s: string)
    ensures Lower(RemoveChar(s, '&')) == RemoveChar(Lower(s), '&')
    decreases |s|
  {
    if |s| > 0 {
      LowerRemoveAmpersand(s[1..]);
      assert Lower(s)[1..] == Lower(s[1..]);
      LowerConcat(if s[0] == '&' then "" else [s[0]], RemoveChar(s[1..], '&'));
    }
  }

  /** Up to case, the slug is the title without its white space and without "&". */
  lemma SlugLetters(query: string)
    ensures Lower(Slug(query)) == RemoveChar(Lower(DropSpaces(query)), '&')
  {
    var titled := RemoveChar(Titled(query), '&');
    LowerConcatAll(Words(query));
    ConcatWords(query);
    LowerRemoveAmpersand(Titled(query));
    if titled == "Stop!Go" {
      LowerUpper(titled);
    }
  }

  /** Every character of a capitalised word is one of the word's characters in some case. */
  lemma CapitalizeFree(s: string)
    requires NoSpace(s) && '&' !in s
    ensures NoSpace(Capitalize(s)) && '&' !in Capitalize(s)
  {
  }

  /** The run of capitalised words holds no white space. */
  lemma {:induction false} ConcatNoSpace(words: seq<string>)
    requires forall i :: 0 <= i < |words| ==> NoSpace(words[i])
    ensures NoSpace(Concat(CapitalizeAll(words)))
    decreases |words|
  {
    if |words| > 0 {
      assert CapitalizeAll(words)[1..] == CapitalizeAll(words[1..]);
      ConcatNoSpace(words[1..]);
      assert NoSpace(words[0]);
      var first := Capitalize(words[0]);
      assert forall i :: 0 <= i < |first| ==> !IsSpace(first[i]);
    }
  }

  /** Removing a character keeps a text free of white space. */
  lemma {:induction false} RemoveCharNoSpace(s: string, c: char)
    requires NoSpace(s)
    ensures NoSpace(RemoveChar(s, c))
    decreases |s|
  {
    if |s| > 0 {
      RemoveCharNoSpace(s[1..], c);
    }
  }

  /** The slug holds no "&" and no white space. */
  lemma SlugFree(query: string)
    ensures '&' !in Slug(query) && NoSpace(Slug(query))
  {
    var words := Words(query);
    forall i | 0 <= i < |words| ensures NoSpace(words[i]) {
      WordsAreWords(query, i);
    }
    ConcatNoSpace(words);
    var titled := RemoveChar(Titled(query), '&');
    RemoveCharFree(Titled(query), '&');
    RemoveCharNoSpace(Titled(query), '&');
    if titled == "Stop!Go" {
      assert Upper(titled) == "STOP!GO";
    }
  }

  /** Only the title that runs together as "Stop!Go" is turned to capitals. */
  lemma SlugSpecialCase(query: string)
    ensures var titled := RemoveChar(Titled(query), '&');
      (titled == "Stop!Go" ==> Slug(query) == "STOP!GO")
      && (titled != "Stop!Go" ==> Slug(query) == titled)
  {
    var titled := RemoveChar(Titled(query), '&');
    if titled == "Stop!Go" {
      assert Upper(titled) == "STOP!GO";
    }
  }

  /** The words of "Stop! & Go". */
  lemma WordsStopAndGo(query: string)
    requires query == "Stop! & Go"
    ensures Words(query) == ["Stop!", "&", "Go"]
  {
    var words := ["Stop!", "&", "Go"];
    assert Join(words, " ") == "Stop! & Go" by {
      assert words[1..] == ["&", "Go"];
      assert words[1..][1..] == ["Go"];
    }
    WordsJoin(words);
  }

  /** The capitalised words of "Stop! & Go", run together. */
  lemma TitledStopAndGo(query: string)
    requires query == "Stop! & Go"
    ensures Titled(query) == "Stop!&Go"
  {
    WordsStopAndGo(query);
    var caps := CapitalizeAll(["Stop!", "&", "Go"]);
    assert caps[0] == "Stop!" by {
      assert Capitalize("Stop!") == [UpperChar('S')] + Lower("top!");
    }
    assert caps[1] == "&";
    assert caps[2] == "Go" by {
      assert Capitalize("Go") == [UpperChar('G')] + Lower("o");
    }
    assert caps == ["Stop!", "&", "Go"];
    assert Concat(caps) == "Stop!" + ("&" + ("Go" + "")) by {
      assert caps[1..] == ["&", "Go"];
      assert caps[1..][1..] == ["Go"];
    }
  }

  /** "Stop! & Go" becomes "STOP!GO". */
  lemma StopAndGo(query: string)
    requires query == "Stop! & Go"
    ensures Slug(query) == "STOP!GO"
  {
    TitledStopAndGo(query);
    RemoveAmpersandStopGo(Titled(query));
    SlugSpecialCase(query);
  }

  /** "Stop!&Go" without its "&". */
  lemma RemoveAmpersandStopGo(t: string)
    requires t == "Stop!&Go"
    ensures RemoveChar(t, '&') == "Stop!Go"
  {
    assert t == "Stop!" + "&Go";
    RemoveCharPrefix("Stop!", "&Go", '&');
    var g := "&Go"[1..];
    assert g == "Go" + "";
    RemoveCharPrefix("Go", "", '&');
  }

  /** Removing `c` from a text that starts with a piece free of `c`. */
  lemma {:induction false} RemoveCharPrefix(a: string, t: string, c: char)
    requires c !in a
    ensures RemoveChar(a + t, c) == a + RemoveChar(t, c)
    decreases |a|
  {
    if |a| > 0 {
      assert (a + t)[1..] == a[1..] + t;
      RemoveCharPrefix(a[1..], t, c);
      assert [a[0]] + a[1..] == a;
    } else {
      assert a + t == t;
    }
  }

  /** The address gives back the slug between the site's songs folder and the cover file. */
  lemma JacketUrlSlug(query: string)
    ensures var url := JacketUrl(query);
      |url| == |SongsBase| + |Slug(query)| + |CoverFile|
      && url[..|SongsBase|] == SongsBase
      && url[|SongsBase|..|url| - |CoverFile|] == Slug(query)
      && url[|url| - |CoverFile|..] == CoverFile
  {
  }

  // ---------------------------------------------------------------------
  // The reply.
  // ---------------------------------------------------------------------

  /** The `success` member of a JSON reply: a string, or any other JSON value. */
  datatype JsonValue = JsonString(s: string) | JsonOther

  /** What `get_image` ends with: a text, `None`, or an exception. */
  datatype Outcome = Returns(text: string) | ReturnsNone | Raises

  const NoSong := "StepManiaX API failed to return a song."
  const Unreachable := "StepManiaX API could not be reached."

  /**
   * `get_image` for the reply's `content-type` header and its body as a
   * JSON object (`None` when it is not one). A JSON reply without `success`
   * raises `KeyError`; one whose `success` is the string "false" returns
   * nothing.
   */
  function GetImage(query: string, contentType: Option<string>, body: Option<map<string, JsonValue>>): Outcome {
    var url := JacketUrl(query);
    if contentType == Some("image/png") then Returns(url)
    else if contentType == Some("application/json") then
      match body
      case None => Raises
      case Some(obj) =>
        if "success" !in obj then Raises
        else if obj["success"] != JsonString("false") then Returns(NoSong)
        else ReturnsNone
    else Returns(Unreachable)
  }

  /** The jacket address is returned exactly for a PNG reply. */
  lemma GetImageUrlIff(query: string, contentType: Option<string>, body: Option<map<string, JsonValue>>)
    ensures GetImage(query, contentType, body) == Returns(JacketUrl(query)) <==> contentType == Some("image/png")
  {
    var url := JacketUrl(query);
    assert url[0] == 'h';
    assert NoSong[0] == 'S' && Unreachable[0] == 'S';
  }

  /** Any reply other than PNG or JSON is reported as the site being out of reach. */
  lemma GetImageUnreachable(query: string, contentType: Option<string>, body: Option<map<string, JsonValue>>)
    ensures GetImage(query, contentType, body) == Returns(Unreachable) <==>
      contentType != Some("image/png") && contentType != Some("application/json")
  {
    var url := JacketUrl(query);
    assert url[0] == 'h';
    assert NoSong[15] == 'f' && Unreachable[15] == 'c';
  }

  /** A JSON reply with `success` says no song was found, unless `success` is the string "false". */
  lemma GetImageJson(query: string, obj: map<string, JsonValue>)
    requires "success" in obj
    ensures GetImage(query, Some("application/json"), Some(obj)) ==
      if obj["success"] == JsonString("false") then ReturnsNone else Returns(NoSong)
  {
  }
}
