/** `auth.py`: the deterministic username and initial-password rules used
    when accounts are created, and the password check at login. */
module Auth {
  import opened PyValues
  import opened PyText

  function Min(a: nat, b: nat): nat {
    if a <= b then a else b
  }

  predicate NoCapitals(s: string) {
    forall i :: 0 <= i < |s| ==> !('A' <= s[i] <= 'Z')
  }

  // ------------------------------------------------------------ usernames

  /** `generate_username`: the stripped, lower-cased first name followed by
      the first three characters (or fewer) of the stripped, lower-cased last
      name; empty when there is no first name. */
  function GenerateUsername(first: string, last: string): (u: string)
    ensures first == "" ==> u == ""
    ensures first != "" ==> StartsWith(u, Lower(Strip(first)))
    ensures first != "" ==> |Strip(first)| <= |u| <= |Strip(first)| + 3
    ensures first != "" ==> u[|Strip(first)|..] == Lower(Strip(last))[..Min(3, |Strip(last)|)]
  {
    if first == "" then ""
    else
      var f := Lower(Strip(first));
      var l := Lower(Strip(last));
      f + l[..Min(3, |l|)]
  }

  lemma LowerHasNoCapitals(s: string)
    ensures NoCapitals(Lower(s))
  {
    forall i | 0 <= i < |s|
      ensures !('A' <= Lower(s)[i] <= 'Z')
    {
      assert Lower(s)[i] == LowerChar(s[i]);
    }
  }

  /** A username never holds a capital letter. */
  lemma UsernameHasNoCapitals(first: string, last: string)
    ensures NoCapitals(GenerateUsername(first, last))
  {
    if first != "" {
      var f := Lower(Strip(first));
      var l := Lower(Strip(last));
      var k := Min(3, |l|);
      LowerHasNoCapitals(Strip(first));
      LowerHasNoCapitals(Strip(last));
      assert NoCapitals(l[..k]) by {
        forall i | 0 <= i < k
          ensures !('A' <= l[..k][i] <= 'Z')
        {
          assert l[..k][i] == l[i];
        }
      }
      var u := f + l[..k];
      assert u == GenerateUsername(first, last);
      forall i | 0 <= i < |u|
        ensures !('A' <= u[i] <= 'Z')
      {
        if i < |f| {
          assert u[i] == f[i];
        } else {
          assert u[i] == l[..k][i - |f|];
        }
      }
    }
  }

  /** The same names typed in capitals give the same username. */
  lemma UsernameIgnoresCase(first: string, last: string)
    ensures GenerateUsername(Upper(first), Upper(last)) == GenerateUsername(first, last)
  {
    StripLower(Upper(first));
    StripLower(first);
    LowerOfUpper(first);
    StripLower(Upper(last));
    StripLower(last);
    LowerOfUpper(last);
    assert |Upper(first)| == |first|;
  }

  // ------------------------------------------------------------ passwords

  /** The last `min(2, len)` characters of a text. */
  function LastTwo(s: string): (r: string)
    ensures |r| == Min(2, |s|) && r == s[|s| - |r|..]
  {
    if |s| >= 2 then s[|s| - 2..] else s
  }

  /** Two characters of `f`, the last two of `l`, then "26!". */
  function PasswordOf(f: string, l: string): (p: string)
    ensures |p| == Min(2, |f|) + Min(2, |l|) + 3
    ensures 3 <= |p| <= 7 && p[|p| - 3..] == "26!"
    ensures p[..Min(2, |f|)] == f[..Min(2, |f|)] && p[Min(2, |f|)..|p| - 3] == LastTwo(l)
  {
    var a := f[..Min(2, |f|)];
    var p := a + LastTwo(l) + "26!";
    ThreeParts(a, LastTwo(l), "26!");
    p
  }

  /** The three pieces of a concatenation, read back by slicing. */
  lemma ThreeParts(a: string, b: string, c: string)
    ensures var p := a + b + c;
      p[..|a|] == a && p[|a|..|a| + |b|] == b && p[|a| + |b|..] == c
  {
  }

  /** `generate_password`: two characters of the stripped first name, the
      last two of the stripped last name, then "26!"; empty when there is no
      first name. */
  function GeneratePassword(first: string, last: string): (p: string)
    ensures first == "" ==> p == ""
    ensures first != "" ==> p == PasswordOf(Strip(first), Strip(last))
  {
    if first == "" then "" else PasswordOf(Strip(first), Strip(last))
  }

  // ------------------------------------------------------------ login

  /** Stored values in this form are PBKDF2 hashes. */
  const HashPrefix: string := "pbkdf2$"

  /** `verify_password`. `stored` is `None` for a missing value. The hash
      branch (splitting, hex decoding and PBKDF2) is outside the model:
      `hashCheck` is its verdict, `None` when any step raises. Every other
      stored value is compared as plain text. */
  function VerifyPassword(stored: Option<string>, provided: string, hashCheck: Option<bool>): (ok: bool)
    ensures stored.None? ==> !ok
    ensures stored.Some? && StartsWith(stored.value, HashPrefix) ==> (ok <==> hashCheck == Some(true))
    ensures stored.Some? && !StartsWith(stored.value, HashPrefix) ==> (ok <==> provided == stored.value)
  {
    match stored
    case None => false
    case Some(s) => if StartsWith(s, HashPrefix) then hashCheck == Some(true) else s == provided
  }

  /** A generated password kept as plain text never looks like a hash: it
      is accepted exactly when it is typed back. */
  lemma GeneratedPasswordChecksAsPlainText(first: string, last: string, typed: string, hashCheck: Option<bool>)
    requires first != ""
    ensures var p := GeneratePassword(first, last);
      VerifyPassword(Some(p), typed, hashCheck) <==> typed == p
  {
    PasswordOfIsNotHash(Strip(first), Strip(last));
  }

  lemma PasswordOfIsNotHash(f: string, l: string)
    ensures !StartsWith(PasswordOf(f, l), HashPrefix)
  {
    var p := PasswordOf(f, l);
    assert p[|p| - 1] == p[|p| - 3..][2] == '!';
    if |p| == 7 {
      assert p[..7][6] != HashPrefix[6];
    }
  }
}
