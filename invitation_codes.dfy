/**
 * Invitation code generation: six characters, each drawn uniformly from
 * 62 ASCII letters and digits. The random generator is not modelled; the
 * indices it draws are the input.
 */
module InvitationCodes {

  import opened Types

  const UPPERCASE: string := "ABCDEFGHIJKLMNOPQRSTUVWXYZ"
  const LOWERCASE: string := "abcdefghijklmnopqrstuvwxyz"
  const DIGITS: string := "0123456789"

  /** The alphabet of codes, in the order the generator indexes it. */
  const CHARSET: string := UPPERCASE + LOWERCASE + DIGITS

  /** Length of every invitation code. */
  const LEN: nat := 6

  predicate IsAsciiAlphanumeric(c: char) {
    ('A' <= c <= 'Z') || ('a' <= c <= 'z') || ('0' <= c <= '9')
  }

  /** Position of an alphanumeric character in CHARSET, worked out from its
      code point rather than by searching CHARSET. */
  function CharsetIndex(c: char): (k: int)
    ensures IsAsciiAlphanumeric(c) <==> 0 <= k < 62
  {
    if 'A' <= c <= 'Z' then c as int - 'A' as int
    else if 'a' <= c <= 'z' then 26 + (c as int - 'a' as int)
    else if '0' <= c <= '9' then 52 + (c as int - '0' as int)
    else -1
  }

  predicate IndexedFrom(s: string, offset: int) {
    forall i :: 0 <= i < |s| ==> CharsetIndex(s[i]) == offset + i
  }

  /** CHARSET has 62 characters, the k-th of which is the one CharsetIndex
      sends to k: so the characters are pairwise distinct and all ASCII
      letters or digits. */
  lemma CharsetLayout()
    ensures |CHARSET| == 62
    ensures forall k :: 0 <= k < |CHARSET| ==> CharsetIndex(CHARSET[k]) == k
    ensures forall k :: 0 <= k < |CHARSET| ==> IsAsciiAlphanumeric(CHARSET[k])
  {
    assert IndexedFrom(UPPERCASE, 0);
    assert IndexedFrom(LOWERCASE, 26);
    assert IndexedFrom(DIGITS, 52);
  }

  /** What the random generator may hand over: LEN indices, each in
      `0..CHARSET.len()`. */
  predicate IsDraw(indices: seq<nat>) {
    |indices| == LEN && forall i :: 0 <= i < |indices| ==> indices[i] < |CHARSET|
  }

  /** A string the generator can produce. */
  predicate IsInvitationCode(code: Code) {
    |code| == LEN && forall i :: 0 <= i < |code| ==> code[i] in CHARSET
  }

  /** The code spelled by the drawn indices. */
  function GenerateInvitationCode(indices: seq<nat>): (code: Code)
    requires IsDraw(indices)
    ensures |code| == LEN
    ensures forall i :: 0 <= i < LEN ==> code[i] == CHARSET[indices[i]]
    ensures IsInvitationCode(code)
    ensures forall i :: 0 <= i < LEN ==> IsAsciiAlphanumeric(code[i])
  {
    CharsetLayout();
    seq(LEN, i requires 0 <= i < LEN => CHARSET[indices[i]])
  }

  /** The indices can be read back from the code: distinct draws give
      distinct codes, so the generator can reach all 62^6 codes. */
  lemma DrawRecoverable(indices: seq<nat>)
    requires IsDraw(indices)
    ensures forall i :: 0 <= i < LEN ==> CharsetIndex(GenerateInvitationCode(indices)[i]) == indices[i]
  {
    CharsetLayout();
  }
}
