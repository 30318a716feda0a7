/** String helpers the image helpers rely on: Ruby's String#downcase (ASCII
    letters only) and Ruby's Array#join over strings. */
module Text {

  predicate IsUpper(c: char) {
    'A' <= c <= 'Z'
  }

  /** ASCII lower-casing of one character. */
  function Lower(c: char): (d: char)
    ensures !IsUpper(d)
    ensures !IsUpper(c) ==> d == c
    ensures IsUpper(c) ==> d as int - c as int == 'a' as int - 'A' as int
  {
    if IsUpper(c) then (c as int + ('a' as int - 'A' as int)) as char else c
  }

  predicate NoUpper(s: string) {
    forall i :: 0 <= i < |s| ==> !IsUpper(s[i])
  }

  /** String#downcase: every character lower-cased, nothing else changes. */
  function Downcase(s: string): (r: string)
    ensures |r| == |s|
  {
    seq(|s|, i requires 0 <= i < |s| => Lower(s[i]))
  }

  /** A downcased string has no upper-case letter. */
  lemma DowncaseIsLowerCase(s: string)
    ensures NoUpper(Downcase(s))
  {
  }

  /** A string without upper-case letters is left as it is. */
  lemma DowncaseKeepsLowerCase(s: string)
    requires NoUpper(s)
    ensures Downcase(s) == s
  {
    assert forall i :: 0 <= i < |s| ==> Downcase(s)[i] == s[i];
  }

  lemma DowncaseIdempotent(s: string)
    ensures Downcase(Downcase(s)) == Downcase(s)
  {
    DowncaseIsLowerCase(s);
    DowncaseKeepsLowerCase(Downcase(s));
  }

  /** Array#join(sep) over strings: the parts in order, one separator between
      each neighbouring pair. */
  function Join(parts: seq<string>, sep: string): string
  {
    if |parts| == 0 then ""
    else if |parts| == 1 then parts[0]
    else parts[0] + sep + Join(parts[1..], sep)
  }

  lemma JoinCons(x: string, parts: seq<string>, sep: string)
    requires parts != []
    ensures Join([x] + parts, sep) == x + sep + Join(parts, sep)
  {
    assert ([x] + parts)[1..] == parts;
  }

  /** Appending a part adds one separator and the part at the end. */
  lemma {:induction false} JoinSnoc(parts: seq<string>, x: string, sep: string)
    requires parts != []
    ensures Join(parts + [x], sep) == Join(parts, sep) + sep + x
  {
    if |parts| == 1 {
      assert parts + [x] == [parts[0]] + [x];
      JoinCons(parts[0], [x], sep);
    } else {
      calc {
        Join(parts + [x], sep);
        { assert parts + [x] == [parts[0]] + (parts[1..] + [x]); JoinCons(parts[0], parts[1..] + [x], sep); }
        parts[0] + sep + Join(parts[1..] + [x], sep);
        { JoinSnoc(parts[1..], x, sep); }
        parts[0] + sep + (Join(parts[1..], sep) + sep + x);
      }
    }
  }
}
