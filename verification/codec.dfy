/** The free-text codec of the wire protocol. The server escapes the three
    characters the frame grammar reserves (`|` between response fields, `:`
    between push fields, newline between frames) as numeric character
    references; the client undoes it. Both sides are chains of
    `String.replace`. */
module Codec {
  import opened Common
  import opened JString

  const PIPE_ENTITY: string := "&#124;"
  const COLON_ENTITY: string := "&#58;"
  const NEWLINE_ENTITY: string := "&#10;"

  /** `ConnectionManager.encode` on a non-null string. */
  function Encode(text: string): string
  {
    Replace(Replace(Replace(text, "|", PIPE_ENTITY), ":", COLON_ENTITY), "\n", NEWLINE_ENTITY)
  }

  /** `ClientRoomFrame.decode` on a non-null string. */
  function Decode(text: string): string
  {
    Replace(Replace(Replace(text, PIPE_ENTITY, "|"), COLON_ENTITY, ":"), NEWLINE_ENTITY, "\n")
  }

  /** Both methods map `null` to the empty string. */
  function EncodeNullable(text: Option<string>): (r: string)
    ensures text.None? ==> r == ""
    ensures text.Some? ==> r == Encode(text.value)
  {
    match text
    case None => ""
    case Some(s) => Encode(s)
  }

  function DecodeNullable(text: Option<string>): (r: string)
    ensures text.None? ==> r == ""
    ensures text.Some? ==> r == Decode(text.value)
  {
    match text
    case None => ""
    case Some(s) => Decode(s)
  }

  /** The nullable pair round-trips: `null` arrives as the empty string,
      any other text without `&` arrives unchanged, and the encoded form
      never holds a character the frame grammar reserves. */
  lemma NullableRoundTrip(text: Option<string>)
    requires text.Some? ==> '&' !in text.value
    ensures DecodeNullable(Some(EncodeNullable(text))) == if text.Some? then text.value else ""
    ensures '|' !in EncodeNullable(text) && ':' !in EncodeNullable(text) && '\n' !in EncodeNullable(text)
  {
    match text
    case None =>
      assert Decode("") == "";
    case Some(s) =>
      DecodeEncode(s);
      EncodeFree(s);
  }

  // ---------------------------------------------------------------------
  // A character-by-character reading of the replace chains
  // ---------------------------------------------------------------------

  /** The characters the frame grammar reserves. */
  predicate Reserved(c: char)
  {
    c == '|' || c == ':' || c == '\n'
  }

  /** The character reference `encode` writes for a reserved character. */
  function Entity(c: char): string
  {
    if c == '|' then PIPE_ENTITY
    else if c == ':' then COLON_ENTITY
    else if c == '\n' then NEWLINE_ENTITY
    else [c]
  }

  /** `s` with each character of `active` written as its entity. */
  function Escaped(s: string, active: set<char>): string
  {
    if |s| == 0 then ""
    else (if s[0] in active then Entity(s[0]) else [s[0]]) + Escaped(s[1..], active)
  }

  lemma NoReservedInEntity(a: char, b: char)
    requires Reserved(a) && Reserved(b)
    ensures b !in Entity(a)
    ensures |Entity(a)| >= 5 && Entity(a)[0] == '&' && '&' !in Entity(a)[1..]
  {
  }

  /** Two different entities disagree at a position both of them have. */
  function MismatchAt(a: char, c: char): (k: nat)
    requires Reserved(a) && Reserved(c) && a != c
    ensures k < |Entity(a)| && k < |Entity(c)| && Entity(a)[k] != Entity(c)[k]
  {
    if (a == '|' && c == '\n') || (a == '\n' && c == '|') then 3 else 2
  }

  lemma {:induction false} EscapedNone(s: string)
    ensures Escaped(s, {}) == s
  {
    if |s| > 0 {
      EscapedNone(s[1..]);
      assert s == [s[0]] + s[1..];
    }
  }

  /** One `replace` of a reserved character extends the escaped set by it. */
  lemma {:induction false} EscapeStep(s: string, active: set<char>, c: char)
    requires forall a :: a in active ==> Reserved(a)
    requires Reserved(c) && c !in active
    ensures Replace(Escaped(s, active), [c], Entity(c)) == Escaped(s, active + {c})
  {
    if |s| > 0 {
      var x := s[0];
      var piece := if x in active then Entity(x) else [x];
      ReplaceCharConcat(piece, Escaped(s[1..], active), c, Entity(c));
      EscapeStep(s[1..], active, c);
      if x in active {
        NoReservedInEntity(x, c);
        ReplaceAbsent(piece, [c], Entity(c));
      } else if x == c {
        ReplaceHit("", [c], Entity(c));
        assert [c] + "" == [c];
        assert Entity(c) + "" == Entity(c);
      } else {
        ReplaceAbsent(piece, [c], Entity(c));
      }
    }
  }

  /** `encode` writes every reserved character as its entity and copies the rest. */
  lemma EncodeIsEscaped(s: string)
    ensures Encode(s) == Escaped(s, {'|', ':', '\n'})
  {
    EscapedNone(s);
    EscapeStep(s, {}, '|');
    assert {} + {'|'} == {'|'};
    EscapeStep(s, {'|'}, ':');
    assert {'|'} + {':'} == {'|', ':'};
    EscapeStep(s, {'|', ':'}, '\n');
    assert {'|', ':'} + {'\n'} == {'|', ':', '\n'};
  }

  /** Only the empty text encodes to the empty text. */
  lemma EncodeNonEmpty(s: string)
    ensures Encode(s) == "" <==> s == ""
  {
    EncodeIsEscaped(s);
    if s != "" {
      var x := s[0];
      var piece := if x in {'|', ':', '\n'} then Entity(x) else [x];
      assert Escaped(s, {'|', ':', '\n'}) == piece + Escaped(s[1..], {'|', ':', '\n'});
      assert |piece| > 0;
    }
  }

  lemma {:induction false} EscapedFree(s: string, active: set<char>, b: char)
    requires forall a :: a in active ==> Reserved(a)
    requires Reserved(b) && b in active
    ensures b !in Escaped(s, active)
  {
    if |s| > 0 {
      EscapedFree(s[1..], active, b);
      if s[0] in active {
        NoReservedInEntity(s[0], b);
      }
    }
  }

  /** The output of `encode` contains no `|`, no `:` and no newline. */
  lemma EncodeFree(s: string)
    ensures '|' !in Encode(s) && ':' !in Encode(s) && '\n' !in Encode(s)
  {
    EncodeIsEscaped(s);
    var all := {'|', ':', '\n'};
    EscapedFree(s, all, '|');
    EscapedFree(s, all, ':');
    EscapedFree(s, all, '\n');
  }

  /** One `replace` of an entity by its character undoes the escaping of that
      character, as long as the original text had no `&` of its own. */
  lemma {:induction false} UnescapeStep(s: string, active: set<char>, c: char)
    requires '&' !in s
    requires forall a :: a in active ==> Reserved(a)
    requires c in active
    ensures Replace(Escaped(s, active), Entity(c), [c]) == Escaped(s, active - {c})
  {
    if |s| > 0 {
      var x := s[0];
      var rest := Escaped(s[1..], active);
      UnescapeStep(s[1..], active, c);
      NoReservedInEntity(c, c);
      if x == c {
        ReplaceHit(rest, Entity(c), [c]);
      } else if x in active {
        NoReservedInEntity(x, x);
        ReplaceMiss(Entity(x), rest, Entity(c), [c], MismatchAt(x, c));
      } else {
        ReplaceSkip([x], rest, Entity(c), [c]);
      }
    }
  }

  /** `decode` inverts `encode` on every text that contains no `&`. */
  lemma DecodeEncode(s: string)
    requires '&' !in s
    ensures Decode(Encode(s)) == s
  {
    EncodeIsEscaped(s);
    UnescapeStep(s, {'|', ':', '\n'}, '|');
    assert {'|', ':', '\n'} - {'|'} == {':', '\n'};
    UnescapeStep(s, {':', '\n'}, ':');
    assert {':', '\n'} - {':'} == {'\n'};
    UnescapeStep(s, {'\n'}, '\n');
    assert {'\n'} - {'\n'} == {};
    EscapedNone(s);
  }

  /** Without that side condition the round trip fails: an entity typed by
      the user passes through `encode` untouched and `decode` turns it into
      the character it names. */
  lemma EntityInTextDoesNotRoundTrip()
    ensures Encode(COLON_ENTITY) == COLON_ENTITY
    ensures Decode(Encode(COLON_ENTITY)) == ":"
  {
    var e := COLON_ENTITY;
    ReplaceAbsent(e, "|", PIPE_ENTITY);
    ReplaceAbsent(e, ":", COLON_ENTITY);
    ReplaceAbsent(e, "\n", NEWLINE_ENTITY);
    ReplaceMiss(e, "", PIPE_ENTITY, "|", 2);
    assert e + "" == e;
    ReplaceHit("", e, ":");
    assert e + "" == e;
    assert Replace("", e, ":") == "";
    assert Replace(":", NEWLINE_ENTITY, "\n") == ":";
  }
}
