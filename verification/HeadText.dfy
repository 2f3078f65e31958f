/** Header fields as they are printed, one to a line. */
module HeadText {
  import opened Bytes

  const CRLF: bytes := "\r\n"

  function HeaderText(p: (bytes, bytes)): bytes {
    p.0 + ": " + p.1
  }

  function HeaderBlock(pairs: seq<(bytes, bytes)>): bytes {
    if pairs == [] then [] else HeaderText(pairs[0]) + CRLF + HeaderBlock(pairs[1..])
  }

  lemma {:induction false} HeaderBlockSnoc(pairs: seq<(bytes, bytes)>, last: (bytes, bytes))
    ensures HeaderBlock(pairs + [last]) == HeaderBlock(pairs) + HeaderText(last) + CRLF
    decreases |pairs|
  {
    hide HeaderText;
    if pairs == [] {
      assert (pairs + [last])[1..] == [];
      assert [] + HeaderText(last) == HeaderText(last);
      assert HeaderText(last) + CRLF + [] == HeaderText(last) + CRLF;
    } else {
      assert (pairs + [last])[1..] == pairs[1..] + [last];
      HeaderBlockSnoc(pairs[1..], last);
    }
  }
}
