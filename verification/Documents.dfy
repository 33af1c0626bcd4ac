/** Documents (internal/rag), as they are chunked and then indexed, and the bytes of their ids. */
module Documents {
  import opened Words

  /** Document */
  datatype Document = Document(id: string, title: string, content: string, kind: string, source: string,
                               tags: seq<string>)

  /** One character in UTF-8 */
  function Utf8(c: char): seq<Byte> {
    var n := c as int;
    if n < 0x80 then [n]
    else if n < 0x800 then [0xC0 + n / 0x40, 0x80 + n % 0x40]
    else if n < 0x10000 then [0xE0 + n / 0x1000, 0x80 + n / 0x40 % 0x40, 0x80 + n % 0x40]
    else [0xF0 + n / 0x40000, 0x80 + n / 0x1000 % 0x40, 0x80 + n / 0x40 % 0x40, 0x80 + n % 0x40]
  }

  /** The six bits that a byte after the first carries (section 3 of RFC 3629). */
  function Tail(b: Byte): int {
    (b as int) - 0x80
  }

  /** The lead byte tells the length, and the bits of all bytes together are the character. */
  lemma Utf8Decodes(c: char)
    ensures var (b, n) := (Utf8(c), c as int);
            match |b|
            case 1 => n == b[0] as int
            case 2 => n == ((b[0] as int) - 0xC0) * 0x40 + Tail(b[1])
            case 3 => n == ((b[0] as int) - 0xE0) * 0x1000 + Tail(b[1]) * 0x40 + Tail(b[2])
            case 4 => n == ((b[0] as int) - 0xF0) * 0x40000 + Tail(b[1]) * 0x1000 + Tail(b[2]) * 0x40 + Tail(b[3])
            case _ => false
    ensures |Utf8(c)| == if c < '\U{80}' then 1 else if c < '\U{800}' then 2 else if c < '\U{10000}' then 3 else 4
  {
    var n := c as int;
    assert n / 0x40 / 0x40 == n / 0x1000 && n / 0x1000 / 0x40 == n / 0x40000;
  }

  /** []byte(s) */
  function Bytes(s: string): seq<Byte> {
    if s == "" then [] else Bytes(s[..|s| - 1]) + Utf8(s[|s| - 1])
  }

  lemma {:induction false} BytesConcat(s: string, t: string)
    ensures Bytes(s + t) == Bytes(s) + Bytes(t)
  {
    hide Utf8;
    if t == "" {
      assert s + t == s;
    } else {
      assert (s + t)[..|s + t| - 1] == s + t[..|t| - 1];
      BytesConcat(s, t[..|t| - 1]);
    }
  }

  /** Two ASCII characters are two bytes. */
  lemma BytesOfTwo(c: char, d: char)
    requires c < '\U{80}' && d < '\U{80}'
    ensures Bytes([c, d]) == [c as int, d as int]
  {
    assert [c, d][..1] == [c] && [c][..0] == "";
    assert Bytes([c]) == Bytes("") + Utf8(c);
  }
}
