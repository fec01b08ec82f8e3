/** The LIKE operator with escape character `\`, and the escaping of a raw value. */
module Like {

  const ESCAPE := '\\'

  /** SQL LIKE: `%` matches any text, `_` any character, `\c` the character c. */
  predicate Matches(text: string, pattern: string)
    decreases |pattern|, |text|
  {
    if pattern == [] then text == []
    else if pattern[0] == ESCAPE then
      |pattern| > 1 && text != [] && text[0] == pattern[1] && Matches(text[1..], pattern[2..])
    else if pattern[0] == '%' then
      Matches(text, pattern[1..]) || (text != [] && Matches(text[1..], pattern))
    else
      text != [] && (pattern[0] == '_' || text[0] == pattern[0]) && Matches(text[1..], pattern[1..])
  }

  predicate Special(c: char) {
    c == ESCAPE || c == '%' || c == '_'
  }

  /** Escapes the wildcards and the escape character itself. */
  function Escape(value: string): (r: string) {
    if value == [] then []
    else (if Special(value[0]) then [ESCAPE, value[0]] else [value[0]]) + Escape(value[1..])
  }

  predicate Contains(text: string, value: string) {
    exists i | 0 <= i <= |text| :: value <= text[i..]
  }

  predicate EndsWith(text: string, value: string) {
    |value| <= |text| && text[|text| - |value|..] == value
  }

  // ----- Escaping is exact -----

  /** An escaped value consumes exactly itself, whatever follows in the pattern. */
  lemma {:induction false} EscapedPrefix(text: string, value: string, rest: string)
    ensures Matches(text, Escape(value) + rest)
      <==> value <= text && Matches(text[|value|..], rest)
  {
    if value == [] {
      assert Escape(value) + rest == rest && text[0..] == text;
    } else {
      var p := Escape(value) + rest;
      var p' := Escape(value[1..]) + rest;
      if Special(value[0]) {
        assert p == [ESCAPE, value[0]] + p' && p[2..] == p';
      } else {
        assert p == [value[0]] + p' && p[1..] == p';
      }
      if text != [] {
        EscapedPrefix(text[1..], value[1..], rest);
        assert value <= text <==> text[0] == value[0] && value[1..] <= text[1..] by {
          PrefixStep(text, value);
        }
        if |value| <= |text| {
          assert text[1..][|value[1..]|..] == text[|value|..];
        }
      }
    }
  }

  lemma PrefixStep(text: string, value: string)
    requires text != [] && value != []
    ensures value <= text <==> text[0] == value[0] && value[1..] <= text[1..]
  {
    if text[0] == value[0] && value[1..] <= text[1..] {
      assert value == [value[0]] + value[1..];
      assert text == [text[0]] + text[1..];
    }
    if value <= text {
      assert value[1..] == text[1..|value|];
    }
  }

  lemma {:induction false} PercentMatchesAll(text: string)
    ensures Matches(text, "%")
  {
    assert "%"[1..] == [];
    if text != [] {
      PercentMatchesAll(text[1..]);
    }
  }

  /** A leading `%` skips any number of characters. */
  lemma {:induction false} PercentSkips(text: string, rest: string)
    ensures Matches(text, "%" + rest)
      <==> exists i | 0 <= i <= |text| :: Matches(text[i..], rest)
  {
    var p := "%" + rest;
    assert p[1..] == rest && text[0..] == text;
    if text != [] {
      PercentSkips(text[1..], rest);
      if i :| 0 <= i <= |text[1..]| && Matches(text[1..][i..], rest) {
        assert text[1..][i..] == text[i + 1..];
      }
      if i :| 0 < i <= |text| && Matches(text[i..], rest) {
        assert text[i..] == text[1..][i - 1..];
      }
    }
  }

  lemma StartsIsPrefix(text: string, value: string)
    ensures Matches(text, Escape(value) + "%") <==> value <= text
  {
    EscapedPrefix(text, value, "%");
    if value <= text {
      PercentMatchesAll(text[|value|..]);
    }
  }

  lemma ExactIsEquality(text: string, value: string)
    ensures Matches(text, Escape(value)) <==> text == value
  {
    EscapedPrefix(text, value, []);
    assert Escape(value) + [] == Escape(value);
  }

  lemma ContainsIsSubstring(text: string, value: string)
    ensures Matches(text, "%" + Escape(value) + "%") <==> Contains(text, value)
  {
    var rest := Escape(value) + "%";
    assert "%" + Escape(value) + "%" == "%" + rest;
    PercentSkips(text, rest);
    forall i | 0 <= i <= |text|
      ensures Matches(text[i..], rest) <==> value <= text[i..]
    {
      StartsIsPrefix(text[i..], value);
    }
  }

  lemma EndsIsSuffix(text: string, value: string)
    ensures Matches(text, "%" + Escape(value)) <==> EndsWith(text, value)
  {
    PercentSkips(text, Escape(value));
    forall i | 0 <= i <= |text|
      ensures Matches(text[i..], Escape(value)) <==> text[i..] == value
    {
      ExactIsEquality(text[i..], value);
    }
    if EndsWith(text, value) {
      assert Matches(text[|text| - |value|..], Escape(value));
    }
  }

  // ----- Case-insensitive matching -----

  function Folded(fold: char -> char, s: string): (r: string)
    ensures |r| == |s|
    ensures forall i | 0 <= i < |s| :: r[i] == fold(s[i])
  {
    seq(|s|, i requires 0 <= i < |s| => fold(s[i]))
  }

  /** Folding leaves the pattern characters alone and never produces one. */
  ghost predicate FoldsLetters(fold: char -> char) {
    forall c :: (Special(c) ==> fold(c) == c) && (Special(fold(c)) ==> Special(c))
  }

  lemma {:induction false} FoldedEscape(fold: char -> char, value: string)
    requires FoldsLetters(fold)
    ensures Folded(fold, Escape(value)) == Escape(Folded(fold, value))
  {
    if value != [] {
      FoldedEscape(fold, value[1..]);
      assert Folded(fold, value)[1..] == Folded(fold, value[1..]);
      assert Folded(fold, value)[0] == fold(value[0]);
    }
  }
}
