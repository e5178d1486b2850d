/**
 * The authentication-header guard: the datasource's raw header lines
 * ("Name: value") must include one named `X-Authorization`.
 */
module Headers {
  import PhpStrings

  const Authorization: string := "X-Authorization"

  /** The name of a raw header line: the text before its first colon, or the whole line. */
  function HeaderName(h: string): string
  {
    PhpStrings.BeforeFirst(h, ':')
  }

  /** `array_map` of HeaderName over the header lines. */
  function HeaderNames(hs: seq<string>): (ns: seq<string>)
    ensures |ns| == |hs|
  {
    seq(|hs|, i requires 0 <= i < |hs| => HeaderName(hs[i]))
  }

  /** `in_array('X-Authorization', $check)`. */
  predicate HasApiToken(hs: seq<string>)
  {
    Authorization in HeaderNames(hs)
  }

  /** A line carries the header `name` when it is `name` alone or starts with `name:`. */
  predicate Names(h: string, name: string)
  {
    h == name || name + ":" <= h
  }

  /** A line that carries `name` has `name` as its header name. */
  lemma {:induction false} NamesGivesHeaderName(h: string, name: string)
    requires ':' !in name && Names(h, name)
    ensures HeaderName(h) == name
  {
    if name != [] {
      assert h[0] == name[0];
      assert Names(h[1..], name[1..]) by {
        if h != name { assert name[1..] + ":" == (name + ":")[1..]; }
      }
      NamesGivesHeaderName(h[1..], name[1..]);
    }
  }

  /** For a name without a colon, HeaderName picks it out exactly from the lines that carry it. */
  lemma HeaderNameIs(h: string, name: string)
    requires ':' !in name
    ensures HeaderName(h) == name <==> Names(h, name)
  {
    var r := HeaderName(h);
    if r == name && r != h {
      assert h[|r|] == ':';
      assert h == r + ":" + h[|r| + 1..];
    }
    if Names(h, name) {
      NamesGivesHeaderName(h, name);
    }
  }

  /**
   * The guard passes exactly when some line's name before the first colon is
   * `X-Authorization`: the line is `X-Authorization` alone or starts with
   * `X-Authorization:`. The match is exact (case and spaces count).
   */
  lemma HasApiTokenIff(hs: seq<string>)
    ensures HasApiToken(hs) <==> exists i :: 0 <= i < |hs| && Names(hs[i], Authorization)
  {
    assert ':' !in Authorization;
    forall i | 0 <= i < |hs| ensures HeaderNames(hs)[i] == Authorization <==> Names(hs[i], Authorization) {
      HeaderNameIs(hs[i], Authorization);
    }
    if HasApiToken(hs) {
      var i :| 0 <= i < |hs| && HeaderNames(hs)[i] == Authorization;
      assert Names(hs[i], Authorization);
    }
    if exists i :: 0 <= i < |hs| && Names(hs[i], Authorization) {
      var i :| 0 <= i < |hs| && Names(hs[i], Authorization);
      assert HeaderNames(hs)[i] == Authorization;
    }
  }
}
