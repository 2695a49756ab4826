/**
 * Projections of the catalog entry that the video API returns (`get_hanime_title`,
 * `fetch_streams`) and the output file name (`format_filename`). The entry is a JSON
 * value; subscripting follows Python: a missing dict key raises KeyError, a list index
 * outside `-len .. len-1` raises IndexError, and subscripting anything else, or a list
 * with a string, raises TypeError.
 */
module Crawler {
  import opened Common

  datatype Json =
    | JNull
    | JBool(b: bool)
    | JInt(i: int)
    | JStr(s: string)
    | JArr(items: seq<Json>)
    | JObj(fields: map<string, Json>)

  datatype LookupError = KeyError | IndexError | TypeError

  /** `j[key]` for a string key. */
  function Field(j: Json, key: string): (r: Result<Json, LookupError>)
    ensures r.Ok? <==> j.JObj? && key in j.fields
    ensures r.Ok? ==> r.value == j.fields[key]
    ensures r == Err(KeyError) <==> j.JObj? && key !in j.fields
    ensures !j.JObj? ==> r == Err(TypeError)
  {
    match j
    case JObj(fields) => if key in fields then Ok(fields[key]) else Err(KeyError)
    case _ => Err(TypeError)
  }

  /** Python's reading of a list index: negative indices count from the end. */
  function Position(index: int, len: nat): (p: Option<nat>)
    ensures p.Some? <==> -(len as int) <= index < len
    ensures p.Some? ==> p.value < len && (p.value == index || p.value == index + len)
  {
    if 0 <= index < len then Some(index)
    else if -(len as int) <= index < 0 then Some(index + len)
    else None
  }

  /** `j[index]` for an integer index; indexing a string yields a one-character string. */
  function Item(j: Json, index: int): (r: Result<Json, LookupError>)
    ensures j.JArr? && 0 <= index < |j.items| ==> r == Ok(j.items[index])
    ensures j.JArr? && -(|j.items| as int) <= index < 0 ==> r == Ok(j.items[index + |j.items|])
    ensures j.JArr? ==> (r == Err(IndexError) <==> !(-(|j.items| as int) <= index < |j.items|))
    ensures j.JStr? && 0 <= index < |j.s| ==> r == Ok(JStr([j.s[index]]))
    ensures j.JStr? && -(|j.s| as int) <= index < 0 ==> r == Ok(JStr([j.s[index + |j.s|]]))
    ensures j.JStr? ==> (r == Err(IndexError) <==> !(-(|j.s| as int) <= index < |j.s|))
    ensures j.JObj? ==> r == Err(KeyError)
    ensures !(j.JArr? || j.JStr? || j.JObj?) ==> r == Err(TypeError)
  {
    match j
    case JArr(items) =>
      (match Position(index, |items|)
       case Some(p) => Ok(items[p])
       case None => Err(IndexError))
    case JStr(s) =>
      (match Position(index, |s|)
       case Some(p) => Ok(JStr([s[p]]))
       case None => Err(IndexError))
    case JObj(_) => Err(KeyError)  // JSON object keys are strings: an int key is never present
    case _ => Err(TypeError)
  }

  /** Chains two lookups, as `a[x][y]` does. */
  function Then(r: Result<Json, LookupError>, f: Json -> Result<Json, LookupError>): Result<Json, LookupError> {
    match r
    case Ok(v) => f(v)
    case Err(e) => Err(e)
  }

  /** `info["hentai_franchise"]["title"]`. */
  function GetHanimeTitle(info: Json): Result<Json, LookupError> {
    Then(Field(info, "hentai_franchise"), f => Field(f, "title"))
  }

  /** `info["videos_manifest"]["servers"][0]["streams"]`. */
  function FetchStreams(info: Json): Result<Json, LookupError> {
    Then(Then(Then(Field(info, "videos_manifest"), m => Field(m, "servers")), s => Item(s, 0)), v => Field(v, "streams"))
  }

  /**
   * The title is found exactly when the entry is an object holding a
   * `hentai_franchise` object that holds a `title`; a missing key at either level
   * raises KeyError.
   */
  lemma GetHanimeTitleSpec(info: Json)
    ensures GetHanimeTitle(info).Ok? <==>
              info.JObj? && "hentai_franchise" in info.fields &&
              info.fields["hentai_franchise"].JObj? && "title" in info.fields["hentai_franchise"].fields
    ensures GetHanimeTitle(info).Ok? ==>
              GetHanimeTitle(info).value == info.fields["hentai_franchise"].fields["title"]
    ensures info.JObj? && "hentai_franchise" !in info.fields ==> GetHanimeTitle(info) == Err(KeyError)
    ensures (info.JObj? && "hentai_franchise" in info.fields && info.fields["hentai_franchise"].JObj? &&
             "title" !in info.fields["hentai_franchise"].fields) ==> GetHanimeTitle(info) == Err(KeyError)
  {
  }

  /** The streams of the first server only; an empty server list raises IndexError. */
  lemma FetchStreamsSpec(info: Json, servers: seq<Json>)
    requires info.JObj? && "videos_manifest" in info.fields
    requires info.fields["videos_manifest"].JObj?
    requires "servers" in info.fields["videos_manifest"].fields
    requires info.fields["videos_manifest"].fields["servers"] == JArr(servers)
    ensures servers == [] ==> FetchStreams(info) == Err(IndexError)
    ensures servers != [] ==> FetchStreams(info) == Field(servers[0], "streams")
    ensures servers != [] && servers[0].JObj? && "streams" in servers[0].fields ==>
              FetchStreams(info) == Ok(servers[0].fields["streams"])
  {
  }

  function Digit(d: nat): char
    requires d < 10
  {
    "0123456789"[d]
  }

  /** Decimal digits of `n`, as `str()` prints a non-negative int. */
  function NatToString(n: nat): (s: string)
    ensures |s| > 0
    ensures forall i :: 0 <= i < |s| ==> '0' <= s[i] <= '9'
    ensures n > 0 ==> s[0] != '0'
    ensures n == 0 ==> s == "0"
  {
    if n < 10 then [Digit(n)] else NatToString(n / 10) + [Digit(n % 10)]
  }

  /** Value of a string of decimal digits. */
  function DigitsValue(s: string): nat
    requires forall i :: 0 <= i < |s| ==> '0' <= s[i] <= '9'
  {
    if s == [] then 0 else 10 * DigitsValue(s[..|s| - 1]) + (s[|s| - 1] as int - '0' as int)
  }

  /** Reading the printed digits back gives the number: the rendering loses nothing. */
  lemma {:induction false} NatToStringRoundTrip(n: nat)
    ensures DigitsValue(NatToString(n)) == n
  {
    var s := NatToString(n);
    if n >= 10 {
      NatToStringRoundTrip(n / 10);
      assert s[..|s| - 1] == NatToString(n / 10);
    }
  }

  /** `str(i)` for an int. */
  function IntToString(i: int): string {
    if i < 0 then "-" + NatToString(-i) else NatToString(i)
  }

  /** `str(v)` inside an f-string, for the scalar JSON values. */
  function Str(v: Json): Option<string> {
    match v
    case JNull => Some("None")
    case JBool(b) => Some(if b then "True" else "False")
    case JInt(i) => Some(IntToString(i))
    case JStr(s) => Some(s)
    case _ => None
  }

  datatype NameError = Lookup(error: LookupError) | HeightNotScalar

  /** `format_filename`: `f"{video_id}-{height}p.mp4"` with the height of stream `resolutionChoice`. */
  function FormatFilename(streams: Json, videoId: string, resolutionChoice: int): Result<string, NameError> {
    match Then(Item(streams, resolutionChoice), s => Field(s, "height"))
    case Err(e) => Err(Lookup(e))
    case Ok(height) =>
      match Str(height)
      case Some(h) => Ok(videoId + "-" + h + "p.mp4")
      case None => Err(HeightNotScalar)
  }

  /**
   * The name is the id, a dash, the height and `p.mp4`, for a choice counted from either
   * end of the stream list. For an integer height the middle part is its decimal digits,
   * after a `-` when the height is negative, and the digits read back as its magnitude.
   */
  lemma FormatFilenameSpec(streams: seq<Json>, videoId: string, resolutionChoice: int, h: int)
    requires -(|streams| as int) <= resolutionChoice < |streams|
    requires streams[Position(resolutionChoice, |streams|).value].JObj?
    requires "height" in streams[Position(resolutionChoice, |streams|).value].fields
    requires streams[Position(resolutionChoice, |streams|).value].fields["height"] == JInt(h)
    ensures FormatFilename(JArr(streams), videoId, resolutionChoice).Ok?
    ensures var name := FormatFilename(JArr(streams), videoId, resolutionChoice).value;
            var mid := name[|videoId| + 1..|name| - 5];
            var digits := if h < 0 then mid[1..] else mid;
            && name[..|videoId|] == videoId && name[|videoId|] == '-'
            && name[|name| - 5..] == "p.mp4"
            && (h < 0 <==> mid[0] == '-')
            && (forall i :: 0 <= i < |digits| ==> '0' <= digits[i] <= '9')
            && DigitsValue(digits) == (if h < 0 then -h else h)
            && digits == NatToString(if h < 0 then -h else h)
            && (|digits| == 1 || digits[0] != '0')
  {
    var n: nat := if h < 0 then -h else h;
    var digits := NatToString(n);
    var mid := IntToString(h);
    var name := videoId + "-" + mid + "p.mp4";
    assert FormatFilename(JArr(streams), videoId, resolutionChoice) == Ok(name);
    assert name[|videoId| + 1..|name| - 5] == mid;
    assert (if h < 0 then mid[1..] else mid) == digits;
    NatToStringRoundTrip(n);
  }

  /**
   * The other shapes of the chosen stream: a stream that is not an object raises
   * TypeError, one without a height KeyError; a string height is inserted as it is,
   * `None` and the booleans as Python prints them.
   */
  lemma FormatFilenameOtherHeights(streams: seq<Json>, videoId: string, resolutionChoice: int)
    requires -(|streams| as int) <= resolutionChoice < |streams|
    ensures var stream := streams[Position(resolutionChoice, |streams|).value];
            !stream.JObj? ==> FormatFilename(JArr(streams), videoId, resolutionChoice) == Err(Lookup(TypeError))
    ensures var stream := streams[Position(resolutionChoice, |streams|).value];
            stream.JObj? && "height" !in stream.fields ==>
              FormatFilename(JArr(streams), videoId, resolutionChoice) == Err(Lookup(KeyError))
    ensures var stream := streams[Position(resolutionChoice, |streams|).value];
            stream.JObj? && "height" in stream.fields && stream.fields["height"].JStr? ==>
              FormatFilename(JArr(streams), videoId, resolutionChoice) ==
              Ok(videoId + "-" + stream.fields["height"].s + "p.mp4")
    ensures var stream := streams[Position(resolutionChoice, |streams|).value];
            stream.JObj? && "height" in stream.fields && stream.fields["height"] == JNull ==>
              FormatFilename(JArr(streams), videoId, resolutionChoice) == Ok(videoId + "-" + "None" + "p.mp4")
    ensures var stream := streams[Position(resolutionChoice, |streams|).value];
            stream.JObj? && "height" in stream.fields && stream.fields["height"] == JBool(true) ==>
              FormatFilename(JArr(streams), videoId, resolutionChoice) == Ok(videoId + "-" + "True" + "p.mp4")
    ensures var stream := streams[Position(resolutionChoice, |streams|).value];
            stream.JObj? && "height" in stream.fields && stream.fields["height"] == JBool(false) ==>
              FormatFilename(JArr(streams), videoId, resolutionChoice) == Ok(videoId + "-" + "False" + "p.mp4")
  {
  }

  /** A resolution choice outside the stream list raises IndexError. */
  lemma FormatFilenameMissingStream(streams: seq<Json>, videoId: string, resolutionChoice: int)
    requires !(-(|streams| as int) <= resolutionChoice < |streams|)
    ensures FormatFilename(JArr(streams), videoId, resolutionChoice) == Err(Lookup(IndexError))
  {
  }
}
