/** The keyboard tables of kern/console.c: for each scan code, with 0x80 added when
    a prefix came before it, the character of the key; 0 for none. */
module Keymap {
  import opened CString

  /** `normalmap`, in rows of 16. */
  const NORMAL_0: seq<byte> := [0, 27, 49, 50, 51, 52, 53, 54, 55, 56, 57, 48, 45, 61, 8, 9]
  const NORMAL_1: seq<byte> := [113, 119, 101, 114, 116, 121, 117, 105, 111, 112, 91, 93, 10, 0, 97, 115]
  const NORMAL_2: seq<byte> := [100, 102, 103, 104, 106, 107, 108, 59, 39, 96, 0, 92, 122, 120, 99, 118]
  const NORMAL_3: seq<byte> := [98, 110, 109, 44, 46, 47, 0, 42, 0, 32, 0, 0, 0, 0, 0, 0]
  const NORMAL_4: seq<byte> := [0, 0, 0, 0, 0, 0, 0, 55, 56, 57, 45, 52, 53, 54, 43, 49]
  const NORMAL_5: seq<byte> := [50, 51, 48, 46]

  function Normal(data: byte): byte
  {
    if data < 0x10 then NORMAL_0[data]
    else if data < 0x20 then NORMAL_1[data - 0x10]
    else if data < 0x30 then NORMAL_2[data - 0x20]
    else if data < 0x40 then NORMAL_3[data - 0x30]
    else if data < 0x50 then NORMAL_4[data - 0x40]
    else if data < 0x54 then NORMAL_5[data - 0x50]
    else if data == 0x9c then 0x0a
    else if data == 0xb5 then 0x2f
    else if data == 0xc7 then 0xe0
    else if data == 0xc8 then 0xe2
    else if data == 0xc9 then 0xe6
    else if data == 0xcb then 0xe4
    else if data == 0xcd then 0xe5
    else if data == 0xcf then 0xe1
    else if data == 0xd0 then 0xe3
    else if data == 0xd1 then 0xe7
    else if data == 0xd2 then 0xe8
    else if data == 0xd3 then 0xe9
    else 0
  }

  /** `shiftmap`, in rows of 16. */
  const SHIFTED_0: seq<byte> := [0, 27, 33, 64, 35, 36, 37, 94, 38, 42, 40, 41, 95, 43, 8, 9]
  const SHIFTED_1: seq<byte> := [81, 87, 69, 82, 84, 89, 85, 73, 79, 80, 123, 125, 10, 0, 65, 83]
  const SHIFTED_2: seq<byte> := [68, 70, 71, 72, 74, 75, 76, 58, 34, 126, 0, 124, 90, 88, 67, 86]
  const SHIFTED_3: seq<byte> := [66, 78, 77, 60, 62, 63, 0, 42, 0, 32, 0, 0, 0, 0, 0, 0]
  const SHIFTED_4: seq<byte> := [0, 0, 0, 0, 0, 0, 0, 55, 56, 57, 45, 52, 53, 54, 43, 49]
  const SHIFTED_5: seq<byte> := [50, 51, 48, 46]

  function Shifted(data: byte): byte
  {
    if data < 0x10 then SHIFTED_0[data]
    else if data < 0x20 then SHIFTED_1[data - 0x10]
    else if data < 0x30 then SHIFTED_2[data - 0x20]
    else if data < 0x40 then SHIFTED_3[data - 0x30]
    else if data < 0x50 then SHIFTED_4[data - 0x40]
    else if data < 0x54 then SHIFTED_5[data - 0x50]
    else if data == 0x9c then 0x0a
    else if data == 0xb5 then 0x2f
    else if data == 0xc7 then 0xe0
    else if data == 0xc8 then 0xe2
    else if data == 0xc9 then 0xe6
    else if data == 0xcb then 0xe4
    else if data == 0xcd then 0xe5
    else if data == 0xcf then 0xe1
    else if data == 0xd0 then 0xe3
    else if data == 0xd1 then 0xe7
    else if data == 0xd2 then 0xe8
    else if data == 0xd3 then 0xe9
    else 0
  }

  /** `ctlmap`, in rows of 16. */
  const CONTROL_0: seq<byte> := [0, 0, 0, 0, 0, 0, 0, 0, 0, 0, 0, 0, 0, 0, 0, 0]
  const CONTROL_1: seq<byte> := [17, 23, 5, 18, 20, 25, 21, 9, 15, 16, 0, 0, 13, 0, 1, 19]
  const CONTROL_2: seq<byte> := [4, 6, 7, 8, 10, 11, 12, 0, 0, 0, 0, 28, 26, 24, 3, 22]
  const CONTROL_3: seq<byte> := [2, 14, 13, 0, 0, 239]

  function Control(data: byte): byte
  {
    if data < 0x10 then CONTROL_0[data]
    else if data < 0x20 then CONTROL_1[data - 0x10]
    else if data < 0x30 then CONTROL_2[data - 0x20]
    else if data < 0x36 then CONTROL_3[data - 0x30]
    else if data == 0x97 then 0xe0
    else if data == 0xb5 then 0xef
    else if data == 0xc8 then 0xe2
    else if data == 0xc9 then 0xe6
    else if data == 0xcb then 0xe4
    else if data == 0xcd then 0xe5
    else if data == 0xcf then 0xe1
    else if data == 0xd0 then 0xe3
    else if data == 0xd1 then 0xe7
    else if data == 0xd2 then 0xe8
    else if data == 0xd3 then 0xe9
    else 0
  }

  // ---------------------------------------------------------------------------
  // What the tables say
  // ---------------------------------------------------------------------------

  predicate IsLetter(c: int)
  {
    'a' as int <= c <= 'z' as int || 'A' as int <= c <= 'Z' as int
  }

  /** The keys of a row, from a scan code on, have the characters of a string. */
  ghost predicate Legend(table: byte -> byte, code: byte, s: string)
  {
    forall i :: 0 <= i < |s| && code + i < 256 ==> table(code + i) == s[i] as int
  }

  lemma NormalDigits()
    ensures Legend(Normal, 0x02, "1234567890-=")
  {
  }

  lemma NormalTop()
    ensures Legend(Normal, 0x10, "qwertyuiop[]\n")
  {
  }

  lemma NormalHome()
    ensures Legend(Normal, 0x1e, "asdfghjkl;'`")
  {
  }

  lemma NormalBottom()
    ensures Legend(Normal, 0x2b, "\\zxcvbnm,./")
  {
  }

  lemma ShiftedDigits()
    ensures Legend(Shifted, 0x02, "!@#$%^&*()_+")
  {
  }

  lemma ShiftedTop()
    ensures Legend(Shifted, 0x10, "QWERTYUIOP{}\n")
  {
  }

  lemma ShiftedHome()
    ensures Legend(Shifted, 0x1e, "ASDFGHJKL:\"~")
  {
  }

  lemma ShiftedBottom()
    ensures Legend(Shifted, 0x2b, "|ZXCVBNM<>?")
  {
  }

  /** The characters of the main keys, without and with SHIFT. */
  lemma Legends()
    ensures Legend(Normal, 0x02, "1234567890-=") && Legend(Normal, 0x10, "qwertyuiop[]\n")
    ensures Legend(Normal, 0x1e, "asdfghjkl;'`") && Legend(Normal, 0x2b, "\\zxcvbnm,./")
    ensures Legend(Shifted, 0x02, "!@#$%^&*()_+") && Legend(Shifted, 0x10, "QWERTYUIOP{}\n")
    ensures Legend(Shifted, 0x1e, "ASDFGHJKL:\"~") && Legend(Shifted, 0x2b, "|ZXCVBNM<>?")
  {
    NormalDigits();
    NormalTop();
    NormalHome();
    NormalBottom();
    ShiftedDigits();
    ShiftedTop();
    ShiftedHome();
    ShiftedBottom();
  }

  /** With SHIFT a letter is upper case, and with CTL it is a control character. */
  predicate LetterLaw(n: int, s: int, c: int)
  {
    && ('a' as int <= n <= 'z' as int ==> s == n - 32 && c == n - 96)
    && (IsLetter(s) ==> IsLetter(n) && n == s + 32)
    && !('A' as int <= n <= 'Z' as int) && !IsLetter(c)
  }

  lemma LettersRow0(code: byte)
    requires code < 0x10
    ensures LetterLaw(Normal(code), Shifted(code), Control(code))
  {
  }

  lemma LettersRow1(code: byte)
    requires 0x10 <= code < 0x20
    ensures LetterLaw(Normal(code), Shifted(code), Control(code))
  {
  }

  lemma LettersRow2(code: byte)
    requires 0x20 <= code < 0x30
    ensures LetterLaw(Normal(code), Shifted(code), Control(code))
  {
  }

  lemma LettersRow3(code: byte)
    requires 0x30 <= code < 0x40
    ensures LetterLaw(Normal(code), Shifted(code), Control(code))
  {
  }

  lemma LettersLater(code: byte)
    requires code >= 0x40
    ensures LetterLaw(Normal(code), Shifted(code), Control(code))
  {
  }

  /** A key is a letter in all tables or in none: with SHIFT it is upper case, and
      with CTL a control character, which is no letter. */
  lemma LetterKeys(code: byte)
    ensures 'a' as int <= Normal(code) <= 'z' as int ==>
              Shifted(code) == Normal(code) - 32 && Control(code) == Normal(code) - 96
    ensures IsLetter(Shifted(code)) ==> IsLetter(Normal(code)) && Normal(code) == Shifted(code) + 32
    ensures !('A' as int <= Normal(code) <= 'Z' as int) && !IsLetter(Control(code))
  {
    if code < 0x10 {
      LettersRow0(code);
    } else if code < 0x20 {
      LettersRow1(code);
    } else if code < 0x30 {
      LettersRow2(code);
    } else if code < 0x40 {
      LettersRow3(code);
    } else {
      LettersLater(code);
    }
  }

  lemma NoLetterAnywhere(code: byte)
    requires !IsLetter(Normal(code))
    ensures !IsLetter(Shifted(code)) && !IsLetter(Control(code))
  {
    LetterKeys(code);
    assert IsLetter(Shifted(code)) ==> IsLetter(Normal(code));
  }

  /** Of the keys that are no letters, only three have a character with CTL. */
  lemma OtherControlKeys(code: byte)
    requires code < 0x80 && !IsLetter(Normal(code))
    ensures Control(code) == if code == 0x1c then 13 else if code == 0x2b then 28 else if code == 0x35 then 239 else 0
  {
  }

  /** A key after a prefix has the same character with and without SHIFT. With CTL it
      has it too, except '/', Enter and Home, whose entry is at another code. */
  lemma PrefixedKeys(code: byte)
    requires code >= 0x80
    ensures Normal(code) == Shifted(code)
    ensures Normal(code) == Control(code) <==> code !in {0x97, 0x9c, 0xb5, 0xc7}
    ensures Normal(0xc7) == Control(0x97) == 0xe0 && Normal(0x97) == Control(0xc7) == 0
  {
  }

  /** Escape, backspace, tab and the space bar, with and without SHIFT. */
  lemma WhiteKeys(code: byte)
    requires code in {0x01, 0x0e, 0x0f, 0x39}
    ensures Normal(code) == Shifted(code)
    ensures Normal(code) == if code == 0x01 then 27 else if code == 0x0e then 8 else if code == 0x0f then 9 else 32
  {
  }

  /** The keypad, with and without SHIFT. */
  lemma KeypadLegends()
    ensures Legend(Normal, 0x47, "789-456+1230.") && Legend(Normal, 0x37, "*")
    ensures Legend(Shifted, 0x47, "789-456+1230.") && Legend(Shifted, 0x37, "*")
  {
  }

  /** Home, Up, PgUp, Left, Right, End, Down, PgDn, Ins and Del have codes from 0xe0
      on; Enter and '/' of the keypad have those characters. */
  lemma NavigationKeys()
    ensures Normal(0xc7) == 0xe0 && Normal(0xcf) == 0xe1 && Normal(0xc8) == 0xe2 && Normal(0xd0) == 0xe3
    ensures Normal(0xcb) == 0xe4 && Normal(0xcd) == 0xe5 && Normal(0xc9) == 0xe6 && Normal(0xd1) == 0xe7
    ensures Normal(0xd2) == 0xe8 && Normal(0xd3) == 0xe9
    ensures Normal(0x9c) == '\n' as int && Normal(0xb5) == '/' as int
  {
  }

  /** The other keys have no character. */
  lemma SilentKeys(code: byte)
    requires code in {0x00, 0x1d, 0x2a, 0x36, 0x38} || 0x3a <= code <= 0x46 || 0x54 <= code < 0x80
             || (code >= 0x80 && code !in {0x9c, 0xb5, 0xc7, 0xc8, 0xc9, 0xcb, 0xcd, 0xcf, 0xd0, 0xd1, 0xd2, 0xd3})
    ensures Normal(code) == Shifted(code) == 0
  {
  }
}
