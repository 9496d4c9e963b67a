/** Entities of core/src/xml.c: one pass undoes every way of escaping. */
module XmlEntities {
  import opened CStrings
  import opened Wrappers
  import opened XmlText

  /** A written character: itself, or one of the five entities (section 4.6 of XML 1.0). */
  datatype Unit = Plain(c: char) | Escaped(c: char)

  function EntityOf(c: char): string {
    match c
    case '&' => "&amp;"
    case '<' => "&lt;"
    case '>' => "&gt;"
    case '"' => "&quot;"
    case '\'' => "&apos;"
    case _ => ""
  }

  /** One of the five entities stands at the start of s. */
  predicate StartsEntity(s: string) {
    "&amp;" <= s || "&lt;" <= s || "&gt;" <= s || "&quot;" <= s || "&apos;" <= s
  }

  /** A plain ampersand must not make an entity with what is written behind it. */
  predicate ValidUnit(u: Unit, rest: string) {
    match u
    case Plain(c) => c != '&' || !StartsEntity([c] + rest)
    case Escaped(c) => EntityOf(c) != ""
  }

  predicate ValidUnits(us: seq<Unit>) {
    |us| == 0 || (ValidUnit(us[0], Written(us[1..])) && ValidUnits(us[1..]))
  }

  function WrittenUnit(u: Unit): string {
    match u
    case Plain(c) => [c]
    case Escaped(c) => EntityOf(c)
  }

  function Written(us: seq<Unit>): string {
    if |us| == 0 then "" else WrittenUnit(us[0]) + Written(us[1..])
  }

  /** The parser sees an entity exactly where one of the five stands. */
  lemma EntityAtIff(s: string)
    ensures EntityAt(s).Some? <==> StartsEntity(s)
    ensures StartsEntity(s) ==> s[0] == '&' && |EntityAt(s).value.text| >= 4
  {
    hide At;
    AtStart(s, "&amp;");
    AtStart(s, "&lt;");
    AtStart(s, "&gt;");
    AtStart(s, "&quot;");
    AtStart(s, "&apos;");
  }

  lemma EntityAtWritten(c: char, rest: string)
    requires EntityOf(c) != ""
    ensures EntityAt(EntityOf(c) + rest) == Some(Entity(EntityOf(c), c))
  {
    var s := EntityOf(c) + rest;
    assert s[0..|EntityOf(c)|] == EntityOf(c);
    AtIndex(s, 0, "&amp;", if c == '\'' then 2 else 1);
    AtIndex(s, 0, "&lt;", 1);
    AtIndex(s, 0, "&gt;", 1);
    AtIndex(s, 0, "&quot;", 1);
  }

  lemma UnescapeUnit(u: Unit, rest: string)
    requires ValidUnit(u, rest)
    ensures Unescape(WrittenUnit(u) + rest) == [u.c] + Unescape(rest)
  {
    hide EntityAt, EntityOf, StartsEntity;
    var w := WrittenUnit(u);
    match u
    case Plain(c) =>
      EntityAtIff(w + rest);
      assert (w + rest)[1..] == rest;
    case Escaped(c) =>
      EntityAtWritten(c, rest);
      assert (w + rest)[|w|..] == rest;
  }

  lemma UnescapeNothing(s: string)
    requires |s| == 0
    ensures Unescape(s) == ""
  {
  }

  function Denoted(us: seq<Unit>): string {
    seq(|us|, i requires 0 <= i < |us| => us[i].c)
  }

  /** Whichever characters were escaped, one pass gives back what was meant. */
  lemma {:induction false} UnescapeInvertsWriting(us: seq<Unit>)
    requires ValidUnits(us)
    ensures Unescape(Written(us)) == Denoted(us)
  {
    hide Unescape, WrittenUnit, ValidUnit;
    if |us| == 0 {
      UnescapeNothing("");
    } else {
      UnescapeInvertsWriting(us[1..]);
      UnescapeUnit(us[0], Written(us[1..]));
      assert Denoted(us) == [us[0].c] + Denoted(us[1..]);
    }
  }

  /** Every text is written so, in the way in which the parser reads it. */
  lemma {:induction false} EveryTextIsWritten(s: string) returns (us: seq<Unit>)
    ensures ValidUnits(us) && Written(us) == s
  {
    hide EntityAt, EntityOf, StartsEntity;
    if |s| == 0 {
      us := [];
    } else {
      var c := EntityHere(s);
      var u := if StartsEntity(s) then Escaped(c) else Plain(s[0]);
      var rest := s[|WrittenUnit(u)|..];
      assert s == WrittenUnit(u) + rest;
      var more := EveryTextIsWritten(rest);
      us := [u] + more;
      assert us[1..] == more;
    }
  }

  /** The character that the entity at the start of s stands for. */
  lemma EntityHere(s: string) returns (c: char)
    ensures StartsEntity(s) ==> EntityOf(c) != "" && |EntityOf(c)| <= |s| && s == EntityOf(c) + s[|EntityOf(c)|..]
  {
    c := if "&amp;" <= s then '&' else if "&lt;" <= s then '<' else if "&gt;" <= s then '>' else if "&quot;" <= s then '"' else '\'';
  }

  /** Unescaping leaves a text alone exactly when none of the five entities stands anywhere in it. */
  lemma {:induction false} UnescapeIsIdentityIff(s: string)
    ensures Unescape(s) == s <==> forall i :: 0 <= i < |s| ==> !StartsEntity(s[i..])
  {
    hide EntityAt, StartsEntity;
    if |s| > 0 {
      EntityAtIff(s);
      assert s[0..] == s;
      if StartsEntity(s) {
        UnescapeShortens(s);
      } else {
        UnescapeIsIdentityIff(s[1..]);
        UnescapePlain(s);
        forall i | 0 < i < |s| ensures s[1..][i - 1..] == s[i..] {
        }
        if Unescape(s) == s {
          assert Unescape(s)[1..] == Unescape(s[1..]);
          forall i | 0 <= i < |s| ensures !StartsEntity(s[i..]) {
            if i > 0 {
              assert !StartsEntity(s[1..][i - 1..]);
            }
          }
        } else {
          assert s == [s[0]] + s[1..];
          var j :| 0 <= j < |s[1..]| && StartsEntity(s[1..][j..]);
          assert StartsEntity(s[j + 1..]);
        }
      }
    } else {
      UnescapeNothing(s);
    }
  }

  lemma UnescapeShortens(s: string)
    requires StartsEntity(s)
    ensures |Unescape(s)| < |s|
  {
    hide EntityAt, StartsEntity;
    EntityAtIff(s);
  }

  lemma UnescapePlain(s: string)
    requires |s| > 0 && !StartsEntity(s)
    ensures Unescape(s) == [s[0]] + Unescape(s[1..])
  {
    hide EntityAt, StartsEntity;
    EntityAtIff(s);
  }

  /** Escapes everything that can be escaped. */
  function EscapeUnits(s: string): (us: seq<Unit>)
    ensures |us| == |s| && forall i :: 0 <= i < |us| ==> us[i].c == s[i] && (us[i].Escaped? <==> EntityOf(s[i]) != "")
  {
    seq(|s|, i requires 0 <= i < |s| => if EntityOf(s[i]) != "" then Escaped(s[i]) else Plain(s[i]))
  }

  function Escape(s: string): string {
    Written(EscapeUnits(s))
  }

  /** Where everything is escaped, no plain ampersand is left. */
  lemma {:induction false} FullyEscaped(us: seq<Unit>)
    requires forall i :: 0 <= i < |us| ==> (us[i].Escaped? <==> EntityOf(us[i].c) != "")
    ensures ValidUnits(us)
  {
    if |us| > 0 {
      FullyEscaped(us[1..]);
      assert EntityOf('&') != "";
    }
  }

  lemma UnescapeInvertsEscape(s: string)
    ensures Unescape(Escape(s)) == s
  {
    hide Unescape, Written, ValidUnits, EntityOf;
    FullyEscaped(EscapeUnits(s));
    UnescapeInvertsWriting(EscapeUnits(s));
  }

  /** Escaped text holds neither the start of a tag nor a quote, and it ends no text early. */
  lemma {:induction false} EscapedIsSafe(us: seq<Unit>)
    requires forall i :: 0 <= i < |us| ==> us[i].c != '\0' && (us[i].Escaped? <==> EntityOf(us[i].c) != "")
    ensures forall i :: 0 <= i < |Written(us)| ==> Written(us)[i] !in "<>\"'\0"
    ensures |us| > 0 ==> |Written(us)| > 0
    ensures |us| > 0 ==> Written(us)[0] == (if us[0].Escaped? then '&' else us[0].c)
  {
    if |us| > 0 {
      EscapedIsSafe(us[1..]);
      UnitIsSafe(us[0]);
    }
  }

  lemma UnitIsSafe(u: Unit)
    requires u.c != '\0' && (u.Escaped? <==> EntityOf(u.c) != "")
    ensures |WrittenUnit(u)| > 0 && WrittenUnit(u)[0] == (if u.Escaped? then '&' else u.c)
    ensures forall i :: 0 <= i < |WrittenUnit(u)| ==> WrittenUnit(u)[i] !in "<>\"'\0"
  {
  }
}
