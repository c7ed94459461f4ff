// White space and hexadecimal digits.
module Characters {
  import opened Wrappers

  // std::isspace in the C locale.
  predicate Space(c: char) {
    c == ' ' || 9 <= c as int <= 13
  }

  function HexUpper(d: nat): (c: char)
    requires d < 16
    ensures c as int < 128
  {
    if d < 10 then ('0' as int + d) as char else ('A' as int + d - 10) as char
  }

  function HexLower(d: nat): (c: char)
    requires d < 16
    ensures c as int < 128
  {
    if d < 10 then ('0' as int + d) as char else ('a' as int + d - 10) as char
  }

  function HexValue(c: char): (r: Option<nat>)
    ensures r.Some? ==> r.value < 16
  {
    if '0' <= c <= '9' then Some(c as int - '0' as int)
    else if 'a' <= c <= 'f' then Some(c as int - 'a' as int + 10)
    else if 'A' <= c <= 'F' then Some(c as int - 'A' as int + 10)
    else None
  }

  lemma HexDigits(d: nat)
    requires d < 16
    ensures HexValue(HexUpper(d)) == Some(d) && HexValue(HexLower(d)) == Some(d)
    ensures HexUpper(d) == "0123456789ABCDEF"[d] && HexLower(d) == "0123456789abcdef"[d]
  {
    var lower, upper := "0123456789abcdef", "0123456789ABCDEF";
    assert forall i | 0 <= i < 10 :: lower[i] as int == upper[i] as int == '0' as int + i;
    assert forall i | 10 <= i < 16 :: lower[i] as int == 'a' as int + i - 10 && upper[i] as int == 'A' as int + i - 10;
  }

  // A character has a value only if it is one of the two digits with that value.
  lemma HexOnly(c: char)
    ensures HexValue(c).Some? ==> c == HexUpper(HexValue(c).value) || c == HexLower(HexValue(c).value)
  {
  }

  lemma WhiteSpace(c: char)
    ensures Space(c) <==> c in " \t\n\r" || c as int in {11, 12}
  {
    assert " \t\n\r" == [' ', '\t', '\n', '\r'];
  }
}
