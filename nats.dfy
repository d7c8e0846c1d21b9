/**
 The NATS binding's header accessors: `content_type` looks the header up,
 `content_encoding` splits the header on commas and strips each piece. A
 missing `content-encoding` header parses to nothing, never to a list.
 */
module NatsHeaders {
  import opened Codecs
  import Builtins
  import Handler

  const ContentTypeHeader: string := "content-type"
  const ContentEncodingHeader: string := "content-encoding"

  /** `content_type`: the `content-type` header if present. */
  function ContentType(headers: map<string, string>): (r: Option<string>)
    ensures r.Some? <==> ContentTypeHeader in headers
    ensures r.Some? ==> r.value == headers[ContentTypeHeader]
  {
    if ContentTypeHeader in headers then Some(headers[ContentTypeHeader]) else None
  }

  /** `content_encoding`: the comma-separated tags of the `content-encoding`
      header, each stripped of surrounding whitespace, in header order. */
  function ContentEncoding(headers: map<string, string>): (r: Option<seq<string>>)
    ensures r.None? <==> ContentEncodingHeader !in headers
  {
    if ContentEncodingHeader !in headers then None
    else Some(Builtins.StripAll(Builtins.Split(headers[ContentEncodingHeader], ',')))
  }

  /** A present header yields one tag more than it has commas. */
  lemma ContentEncodingCount(headers: map<string, string>)
    requires ContentEncodingHeader in headers
    ensures |ContentEncoding(headers).value| == multiset(headers[ContentEncodingHeader])[','] + 1
  {
    Builtins.SplitCount(headers[ContentEncodingHeader], ',');
  }

  /** Every parsed tag is free of commas and of surrounding whitespace. */
  lemma ContentEncodingTagsWellFormed(headers: map<string, string>, i: nat)
    requires ContentEncodingHeader in headers && i < |ContentEncoding(headers).value|
    ensures WellFormedTag(ContentEncoding(headers).value[i])
  {
    var pieces := Builtins.Split(headers[ContentEncodingHeader], ',');
    Builtins.StripAllAt(pieces, i);
    Builtins.SplitPieceLacksSeparator(headers[ContentEncodingHeader], ',', i);
    Builtins.StripKeepsAbsent(pieces[i], ',');
  }

  /** A tag that survives the header protocol: no comma, no surrounding blanks. */
  predicate WellFormedTag(t: string) {
    ',' !in t && Builtins.Unpadded(t)
  }

  /** Parsing a `", "`-joined tag list gives the tags back, in order. */
  lemma {:induction false} ParseJoined(tags: seq<string>)
    requires |tags| >= 1
    requires forall i :: 0 <= i < |tags| ==> WellFormedTag(tags[i])
    ensures Builtins.StripAll(Builtins.Split(Builtins.Join(tags, ", "), ',')) == tags
    decreases |tags|
  {
    if |tags| == 1 {
      Builtins.SplitWithoutSeparator(tags[0], ',');
    } else {
      ParseJoined(tags[1..]);
      Builtins.ConsTail(tags);
      ParseJoinedStep(tags[0], tags[1..]);
    }
  }

  /** One more well-formed tag in front of a list that already parses back. */
  lemma ParseJoinedStep(t: string, rest: seq<string>)
    requires WellFormedTag(t) && |rest| >= 1
    requires Builtins.StripAll(Builtins.Split(Builtins.Join(rest, ", "), ',')) == rest
    ensures Builtins.StripAll(Builtins.Split(Builtins.Join([t] + rest, ", "), ',')) == [t] + rest
  {
    var inner := Builtins.Split(Builtins.Join(rest, ", "), ',');
    var blanked := [[' '] + inner[0]] + inner[1..];
    SplitJoinedWithBlank(t, rest);
    Builtins.StripAllCons(t, blanked);
    StripBlankPiece(inner);
  }

  /** The pieces of `t + ", " + rest`: `t`, then the pieces of `rest` with a
      blank in front of the first. */
  lemma SplitJoinedWithBlank(t: string, rest: seq<string>)
    requires ',' !in t && |rest| >= 1
    ensures var inner := Builtins.Split(Builtins.Join(rest, ", "), ',');
      Builtins.Split(Builtins.Join([t] + rest, ", "), ',') == [t] + ([[' '] + inner[0]] + inner[1..])
  {
    var j := Builtins.Join(rest, ", ");
    Builtins.JoinCons(t, rest, ", ");
    CommaBlank(t, j);
    Builtins.SplitAfterPiece(t, [' '] + j, ',');
    Builtins.SplitCons(' ', j, ',');
  }

  lemma CommaBlank(t: string, j: string)
    ensures t + ", " + j == t + [','] + ([' '] + j)
  {
  }

  /** A blank in front of the first piece makes no difference once each piece is stripped. */
  lemma StripBlankPiece(inner: seq<string>)
    requires |inner| >= 1
    ensures Builtins.StripAll([[' '] + inner[0]] + inner[1..]) == Builtins.StripAll(inner)
  {
    Builtins.StripAllCons([' '] + inner[0], inner[1..]);
    Builtins.StripLeadingBlank(inner[0]);
    Builtins.StripAllCons(inner[0], inner[1..]);
    Builtins.ConsTail(inner);
  }

  /** The header value a non-empty chain writes parses back into the chain's
      tags, so the element count is the chain length. */
  lemma HeaderRoundTrip(chain: seq<Codec>, headers: map<string, string>)
    requires chain != []
    requires forall i :: 0 <= i < |chain| ==> WellFormedTag(chain[i].encoding)
    requires ContentEncodingHeader in headers
    requires headers[ContentEncodingHeader] == Handler.HeaderValue(chain).value
    ensures ContentEncoding(headers) == Some(Handler.Encodings(chain))
  {
    ParseJoined(Handler.Encodings(chain));
  }
}
