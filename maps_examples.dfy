/** Worked examples of the maps-line parser on concrete text. */
module MapsExamples {
  import opened Common
  import opened Maps
  import opened MapsParser

  // The hexadecimal numbers of the example line, a few digits at a time.

  lemma Hex7f00()
    ensures AllDigits("7f00", 16) && Value("7f00", 16) == 0x7f00
  {
    ValueSnoc("", '7', 16);
    assert "" + ['7'] == "7";
    ValueSnoc("7", 'f', 16);
    assert "7" + ['f'] == "7f";
    ValueSnoc("7f", '0', 16);
    assert "7f" + ['0'] == "7f0";
    ValueSnoc("7f0", '0', 16);
    assert "7f0" + ['0'] == "7f00";
  }

  lemma Hex7f000000()
    ensures AllDigits("7f000000", 16) && Value("7f000000", 16) == 0x7f000000
  {
    Hex7f00();
    ValueSnoc("7f00", '0', 16);
    assert "7f00" + ['0'] == "7f000";
    ValueSnoc("7f000", '0', 16);
    assert "7f000" + ['0'] == "7f0000";
    ValueSnoc("7f0000", '0', 16);
    assert "7f0000" + ['0'] == "7f00000";
    ValueSnoc("7f00000", '0', 16);
    assert "7f00000" + ['0'] == "7f000000";
  }

  lemma Hex7f0000000000()
    ensures AllDigits("7f0000000000", 16) && Value("7f0000000000", 16) == 0x7f0000000000
  {
    Hex7f000000();
    ValueSnoc("7f000000", '0', 16);
    assert "7f000000" + ['0'] == "7f0000000";
    ValueSnoc("7f0000000", '0', 16);
    assert "7f0000000" + ['0'] == "7f00000000";
    ValueSnoc("7f00000000", '0', 16);
    assert "7f00000000" + ['0'] == "7f000000000";
    ValueSnoc("7f000000000", '0', 16);
    assert "7f000000000" + ['0'] == "7f0000000000";
  }

  lemma Hex7f0000001000()
    ensures AllDigits("7f0000001000", 16) && Value("7f0000001000", 16) == 0x7f0000001000
  {
    Hex7f000000();
    ValueSnoc("7f000000", '1', 16);
    assert "7f000000" + ['1'] == "7f0000001";
    ValueSnoc("7f0000001", '0', 16);
    assert "7f0000001" + ['0'] == "7f00000010";
    ValueSnoc("7f00000010", '0', 16);
    assert "7f00000010" + ['0'] == "7f000000100";
    ValueSnoc("7f000000100", '0', 16);
    assert "7f000000100" + ['0'] == "7f0000001000";
  }

  lemma Hex0000()
    ensures AllDigits("0000", 16) && Value("0000", 16) == 0
  {
    ValueSnoc("", '0', 16);
    assert "" + ['0'] == "0";
    ValueSnoc("0", '0', 16);
    assert "0" + ['0'] == "00";
    ValueSnoc("00", '0', 16);
    assert "00" + ['0'] == "000";
    ValueSnoc("000", '0', 16);
    assert "000" + ['0'] == "0000";
  }

  lemma Hex00000000()
    ensures AllDigits("00000000", 16) && Value("00000000", 16) == 0
  {
    Hex0000();
    ValueSnoc("0000", '0', 16);
    assert "0000" + ['0'] == "00000";
    ValueSnoc("00000", '0', 16);
    assert "00000" + ['0'] == "000000";
    ValueSnoc("000000", '0', 16);
    assert "000000" + ['0'] == "0000000";
    ValueSnoc("0000000", '0', 16);
    assert "0000000" + ['0'] == "00000000";
  }

  lemma HexValues()
    ensures ParseUlong("7f0000000000", 16) == Some(0x7f0000000000)
    ensures ParseUlong("7f0000001000", 16) == Some(0x7f0000001000)
    ensures ParseUlong("00000000", 16) == Some(0)
  {
    Hex7f0000000000();
    Hex7f0000001000();
    Hex00000000();
    ParseUlongSpec("7f0000000000", 16);
    ParseUlongSpec("7f0000001000", 16);
    ParseUlongSpec("00000000", 16);
  }

  lemma Hex08()
    ensures ParseUlong("08", 16) == Some(8)
  {
    ValueSnoc("", '0', 16);
    assert "" + ['0'] == "0";
    ValueSnoc("0", '8', 16);
    assert "0" + ['8'] == "08";
    ParseUlongSpec("08", 16);
  }

  lemma Hex01()
    ensures ParseUlong("01", 16) == Some(1)
  {
    ValueSnoc("", '0', 16);
    assert "" + ['0'] == "0";
    ValueSnoc("0", '1', 16);
    assert "0" + ['1'] == "01";
    ParseUlongSpec("01", 16);
  }

  lemma Hex10()
    ensures ParseUlong("10", 16) == Some(16)
  {
    ValueSnoc("", '1', 16);
    assert "" + ['1'] == "1";
    ValueSnoc("1", '0', 16);
    assert "1" + ['0'] == "10";
    ParseUlongSpec("10", 16);
  }

  /** The address field of the example line. */
  lemma ExampleAddress()
    ensures AddressStage("7f0000000000-7f0000001000", Zero) == Go(Zero.(start := 0x7f0000000000, end := 0x7f0000001000))
  {
    var a := "7f0000000000-7f0000001000";
    FindAfterRun(a, 0, 12, '-');
    assert a[..12] == "7f0000000000";
    assert a[13..] == "7f0000001000";
    HexValues();
  }

  /** The last three fields of the example line. */
  lemma ExampleInode(m: MemoryMap)
    ensures FromTokens(["1234"], 4, "/lib/test.so", m) == Parsed(m.(inode := 1234, pathname := "/lib/test.so"))
  {
    ParseUlongValueExamples();
    LeadingSpec("/lib/test.so", ' ');
    assert Trimmed("/lib/test.so") == "/lib/test.so";
  }

  lemma ExampleDevice(m: MemoryMap)
    ensures FromTokens(["08:01", "1234"], 3, "/lib/test.so", m) ==
            FromTokens(["1234"], 4, "/lib/test.so", m.(devMajor := 8, devMinor := 1))
  {
    DeviceExamples(m);
    assert ["08:01", "1234"][1..] == ["1234"];
  }

  lemma ExampleOffset(m: MemoryMap)
    ensures FromTokens(["00000000", "08:01", "1234"], 2, "/lib/test.so", m) ==
            FromTokens(["08:01", "1234"], 3, "/lib/test.so", m.(offset := 0))
  {
    HexValues();
    assert ["00000000", "08:01", "1234"][1..] == ["08:01", "1234"];
  }

  lemma ExamplePermissions(m: MemoryMap)
    requires m.prot == Prot(false, false, false) && m.flags == Flags(false, false)
    ensures FromTokens(["rw-p", "00000000", "08:01", "1234"], 1, "/lib/test.so", m) ==
            FromTokens(["00000000", "08:01", "1234"], 2, "/lib/test.so",
                       m.(prot := Prot(true, true, false), flags := Flags(true, false)))
  {
    assert "rw-p"[0] == 'r' && "rw-p"[1] == 'w' && "rw-p"[2] == '-' && "rw-p"[3] == 'p';
    assert TokenStage(1, "rw-p", m) == Go(m.(prot := Prot(true, true, false), flags := Flags(true, false)));
    assert ["rw-p", "00000000", "08:01", "1234"][1..] == ["00000000", "08:01", "1234"];
  }

  lemma ExampleTokens()
    ensures FromTokens(["7f0000000000-7f0000001000", "rw-p", "00000000", "08:01", "1234"], 0, "/lib/test.so", Zero) ==
            FromTokens(["rw-p", "00000000", "08:01", "1234"], 1, "/lib/test.so",
                       Zero.(start := 0x7f0000000000, end := 0x7f0000001000))
  {
    ExampleAddress();
    assert ["7f0000000000-7f0000001000", "rw-p", "00000000", "08:01", "1234"][1..] == ["rw-p", "00000000", "08:01", "1234"];
  }

  lemma JoinedInode()
    ensures Joined(["1234"]) == "1234 "
  {
    assert ["1234"][1..] == [];
  }

  lemma JoinedDevice()
    ensures Joined(["08:01", "1234"]) == "08:01 1234 "
  {
    JoinedInode();
    assert ["08:01", "1234"][1..] == ["1234"];
  }

  lemma JoinedOffset()
    ensures Joined(["00000000", "08:01", "1234"]) == "00000000 08:01 1234 "
  {
    JoinedDevice();
    assert ["00000000", "08:01", "1234"][1..] == ["08:01", "1234"];
  }

  lemma JoinedPermissions()
    ensures Joined(["rw-p", "00000000", "08:01", "1234"]) == "rw-p 00000000 08:01 1234 "
  {
    JoinedOffset();
    assert ["rw-p", "00000000", "08:01", "1234"][1..] == ["00000000", "08:01", "1234"];
  }

  lemma JoinedFields()
    ensures Joined(["7f0000000000-7f0000001000", "rw-p", "00000000", "08:01", "1234"]) ==
            "7f0000000000-7f0000001000 rw-p 00000000 08:01 1234 "
  {
    JoinedPermissions();
    assert ["7f0000000000-7f0000001000", "rw-p", "00000000", "08:01", "1234"][1..] == ["rw-p", "00000000", "08:01", "1234"];
  }

  lemma ExampleText()
    ensures Joined(["7f0000000000-7f0000001000", "rw-p", "00000000", "08:01", "1234"]) + "/lib/test.so" ==
            "7f0000000000-7f0000001000 rw-p 00000000 08:01 1234 /lib/test.so"
  {
    JoinedFields();
  }

  /** The example line splits into its six fields. */
  lemma ExampleSplit()
    ensures LineSpec("7f0000000000-7f0000001000 rw-p 00000000 08:01 1234 /lib/test.so") ==
            FromTokens(["7f0000000000-7f0000001000", "rw-p", "00000000", "08:01", "1234"], 0, "/lib/test.so", Zero)
  {
    var ts := ["7f0000000000-7f0000001000", "rw-p", "00000000", "08:01", "1234"];
    ExampleText();
    FieldsOfLine(ts, "/lib/test.so");
  }

  lemma ExampleFields()
    ensures FromTokens(["7f0000000000-7f0000001000", "rw-p", "00000000", "08:01", "1234"], 0, "/lib/test.so", Zero) ==
            Parsed(MemoryMap(0x7f0000000000, 0x7f0000001000, Prot(true, true, false), Flags(true, false),
                             0, 8, 1, 1234, "/lib/test.so"))
  {
    var m0 := Zero.(start := 0x7f0000000000, end := 0x7f0000001000);
    var m1 := m0.(prot := Prot(true, true, false), flags := Flags(true, false));
    ExampleTokens();
    ExamplePermissions(m0);
    ExampleOffset(m1);
    ExampleDevice(m1.(offset := 0));
    ExampleInode(m1.(devMajor := 8, devMinor := 1));
  }

  /** The line `7f0000000000-7f0000001000 rw-p 00000000 08:01 1234 /lib/test.so`:
      read and write (`PROT_READ | PROT_WRITE`), private (`MAP_PRIVATE`),
      offset 0, device (8, 1), inode 1234. */
  lemma ExampleLine()
    ensures LineSpec("7f0000000000-7f0000001000 rw-p 00000000 08:01 1234 /lib/test.so") ==
            Parsed(MemoryMap(0x7f0000000000, 0x7f0000001000, Prot(true, true, false), Flags(true, false),
                             0, 8, 1, 1234, "/lib/test.so"))
    ensures ProtWord(Prot(true, true, false)) == 3 && FlagsWord(Flags(true, false)) == 2
  {
    ExampleSplit();
    ExampleFields();
  }

  /** The device slices are fixed: "08:01" is (8, 1); an unparsable major
      is 0; a three-digit major is cut to its first two digits and the
      minor slice then starts at the colon, so it reads as 0; a token of
      two characters throws. */
  lemma DeviceExamples(m: MemoryMap)
    ensures DeviceStage("08:01", m) == Go(m.(devMajor := 8, devMinor := 1))
    ensures DeviceStage("zz:01", m) == Go(m.(devMajor := 0, devMinor := 1))
    ensures DeviceStage("103:05", m) == Go(m.(devMajor := 16, devMinor := 0))
    ensures DeviceStage("08", m) == Throw
  {
    Hex08();
    Hex01();
    Hex10();
    assert "08:01"[..2] == "08" && "08:01"[3..5] == "01";
    assert "zz:01"[..2] == "zz" && "zz:01"[3..5] == "01";
    assert "103:05"[..2] == "10" && "103:05"[3..5] == ":0";
    ParseUlongRejects("zz", 16, 0);
    ParseUlongRejects(":0", 16, 0);
  }

  lemma Hex1000()
    ensures ParseUlong("1000", 16) == Some(0x1000)
  {
    ValueSnoc("", '1', 16);
    assert "" + ['1'] == "1";
    ValueSnoc("1", '0', 16);
    assert "1" + ['0'] == "10";
    ValueSnoc("10", '0', 16);
    assert "10" + ['0'] == "100";
    ValueSnoc("100", '0', 16);
    assert "100" + ['0'] == "1000";
    ParseUlongSpec("1000", 16);
  }

  lemma ShortLineSpaces()
    ensures Spaces("1000-zz x") == [7]
  {
    var line := "1000-zz x";
    assert Spaces(line[..1]) == [] by { assert line[..1][..0] == []; }
    assert Spaces(line[..2]) == [] by { assert line[..2][..1] == line[..1]; }
    assert Spaces(line[..3]) == [] by { assert line[..3][..2] == line[..2]; }
    assert Spaces(line[..4]) == [] by { assert line[..4][..3] == line[..3]; }
    assert Spaces(line[..5]) == [] by { assert line[..5][..4] == line[..4]; }
    assert Spaces(line[..6]) == [] by { assert line[..6][..5] == line[..5]; }
    assert Spaces(line[..7]) == [] by { assert line[..7][..6] == line[..6]; }
    assert Spaces(line[..8]) == [7] by { assert line[..8][..7] == line[..7]; }
    assert line[..8] == line[..|line| - 1];
  }

  lemma UnparsableEndAddress()
    ensures AddressStage("1000-zz", Zero) == Stop(Zero.(start := 0x1000))
  {
    var tok := "1000-zz";
    FindAfterRun(tok, 0, 4, '-');
    assert tok[..4] == "1000" && tok[5..] == "zz";
    Hex1000();
    ParseUlongRejects("zz", 16, 0);
  }

  /** An end address that does not parse stops the line after the start:
      the record keeps `end` 0, so its size wraps to 2^64 - 0x1000 bytes
      (`DumpFile.UnparsableEndThrows` dumps it). */
  lemma UnparsableEnd()
    ensures LineSpec("1000-zz x") == Parsed(Zero.(start := 0x1000))
    ensures Size(Zero.(start := 0x1000)) == ULONG_MOD - 0x1000
  {
    ShortLineSpaces();
    assert "1000-zz x"[0..7] == "1000-zz";
    UnparsableEndAddress();
  }
}
