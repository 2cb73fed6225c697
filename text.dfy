/** Small string helpers shared by the codec and the ACL cache: an Option type
    for the C code's NULL pointers, ASCII case folding as strcasecmp and
    strncasecmp do it, and the decimal rendering of printf's %u. */
module Text {

  /** A value that may be absent; None plays the role of a NULL pointer. */
  datatype Option<T> = None | Some(value: T)

  /** tolower() in the C locale. */
  function ToLowerAscii(c: char): (r: char)
    ensures 'A' <= c <= 'Z' ==> r as int == c as int + 32
    ensures !('A' <= c <= 'Z') ==> r == c
  {
    if 'A' <= c <= 'Z' then (c as int + 32) as char else c
  }

  /** strcasecmp(a, b) == 0 */
  predicate EqualsIgnoreCase(a: string, b: string)
  {
    |a| == |b| && forall i :: 0 <= i < |a| ==> ToLowerAscii(a[i]) == ToLowerAscii(b[i])
  }

  /** strncasecmp(s, prefix, |prefix|) == 0, for an s at least as long as prefix. */
  predicate StartsWithIgnoreCase(s: string, prefix: string)
  {
    |prefix| <= |s| && EqualsIgnoreCase(s[..|prefix|], prefix)
  }

  lemma EqualsIgnoreCaseLength(a: string, b: string)
    requires EqualsIgnoreCase(a, b)
    ensures |a| == |b|
  {
  }

  function DigitChar(d: nat): (c: char)
    requires d < 10
    ensures '0' <= c <= '9'
  {
    ['0', '1', '2', '3', '4', '5', '6', '7', '8', '9'][d]
  }

  predicate IsDigits(s: string)
  {
    forall i :: 0 <= i < |s| ==> '0' <= s[i] <= '9'
  }

  /** printf("%u", n): the shortest decimal numeral of n. */
  function Decimal(n: nat): (s: string)
    decreases n
  {
    if n < 10 then [DigitChar(n)] else Decimal(n / 10) + [DigitChar(n % 10)]
  }

  /** The numeral of n is a non-empty run of digits, so an IMAP reader takes it
      as a single atom. */
  lemma {:induction false} DecimalIsDigits(n: nat)
    ensures |Decimal(n)| >= 1 && IsDigits(Decimal(n))
    decreases n
  {
    if n >= 10 {
      DecimalIsDigits(n / 10);
    }
  }

  /** The strings of xs with sep between consecutive ones. */
  function Join(xs: seq<string>, sep: string): string
  {
    if xs == [] then "" else if |xs| == 1 then xs[0] else xs[0] + sep + Join(xs[1..], sep)
  }

  /** Joining one more string appends the separator and that string. */
  lemma {:induction false} JoinSnoc(xs: seq<string>, x: string, sep: string)
    ensures Join(xs + [x], sep) == if xs == [] then x else Join(xs, sep) + sep + x
  {
    if |xs| == 1 {
      assert (xs + [x])[1..] == [x];
    } else if |xs| > 1 {
      assert (xs + [x])[1..] == xs[1..] + [x];
      JoinSnoc(xs[1..], x, sep);
    }
  }

  // ---------------------------------------------------------------------
  // Regrouping appends: the buffer grows one piece at a time, the reference
  // rendering is one concatenation. These lemmas take the pieces as plain
  // strings so the regrouping is checked once, independently of what the
  // pieces are.

  lemma Assoc(s: string, a: string, b: string)
    ensures s + (a + b) == s + a + b
  {
  }

  lemma Wrapped(s: string, body: string)
    ensures s + ("(" + body + ")") == s + "(" + body + ")"
  {
  }

  lemma Assoc3(s: string, a: string, b: string, c: string)
    ensures s + (a + b + c) == s + a + b + c
  {
  }

  lemma BasicChain(s: string, a: string, b: string, c: string, d: string, e: string, f: string, g: string)
    ensures s + (a + " " + b + " " + c + " " + d + " " + e + " " + f + " " + g)
      == s + a + " " + b + " " + c + " " + d + " " + e + " " + f + " " + g
  {
  }

  lemma TailChain(s: string, env: string, body: string, lines: string)
    ensures s + (" " + env + " " + body + " " + lines) == s + " " + env + " " + body + " " + lines
  {
  }

  lemma ExtensionChain(s: string, a: string, b: string, c: string)
    ensures s + (" " + a + " " + b + " " + c) == s + " " + a + " " + b + " " + c
  {
  }

  lemma SubtypeChain(s: string, a: string, sub: string, ext: string)
    ensures s + (a + " " + sub + ext) == s + a + " " + sub + ext
  {
  }

  lemma NestedBody(env: string, body: string, l: string)
    ensures " " + env + " " + ("" + ("(" + body + ")")) + " " + l == " " + env + " (" + body + ") " + l
  {
  }

  lemma Concat4(s: string, a: string, b: string, c: string, d: string)
    ensures s + (a + b + c + d) == s + a + b + c + d
  {
  }
}
