/** The lookup tables of components/ud3tn/crc.c, as 32-bit words, and that they are
    the tables of octet remainders the checksums need. */
module CrcTables {
  import opened Octets
  import opened CrcDivision
  import opened Crc

  datatype Version = X25 | Crc32c

  function Width(v: Version): nat {
    match v case X25 => 16 case Crc32c => 32
  }

  function Polynomial(v: Version): (r: Bits)
    ensures |r| == Width(v)
  {
    match v case X25 => ToBits(0x1021, 16) case Crc32c => ToBits(0x1EDC_6F41, 32)
  }

  /** Eight entries each of `crc16_x25_table`. */
  function X25Row(k: nat): (r: seq<bv32>)
    requires k < 32
    ensures |r| == 8
  {
    match k
    case 0 => [0x0000, 0x1189, 0x2312, 0x329B, 0x4624, 0x57AD, 0x6536, 0x74BF]
    case 1 => [0x8C48, 0x9DC1, 0xAF5A, 0xBED3, 0xCA6C, 0xDBE5, 0xE97E, 0xF8F7]
    case 2 => [0x1081, 0x0108, 0x3393, 0x221A, 0x56A5, 0x472C, 0x75B7, 0x643E]
    case 3 => [0x9CC9, 0x8D40, 0xBFDB, 0xAE52, 0xDAED, 0xCB64, 0xF9FF, 0xE876]
    case 4 => [0x2102, 0x308B, 0x0210, 0x1399, 0x6726, 0x76AF, 0x4434, 0x55BD]
    case 5 => [0xAD4A, 0xBCC3, 0x8E58, 0x9FD1, 0xEB6E, 0xFAE7, 0xC87C, 0xD9F5]
    case 6 => [0x3183, 0x200A, 0x1291, 0x0318, 0x77A7, 0x662E, 0x54B5, 0x453C]
    case 7 => [0xBDCB, 0xAC42, 0x9ED9, 0x8F50, 0xFBEF, 0xEA66, 0xD8FD, 0xC974]
    case 8 => [0x4204, 0x538D, 0x6116, 0x709F, 0x0420, 0x15A9, 0x2732, 0x36BB]
    case 9 => [0xCE4C, 0xDFC5, 0xED5E, 0xFCD7, 0x8868, 0x99E1, 0xAB7A, 0xBAF3]
    case 10 => [0x5285, 0x430C, 0x7197, 0x601E, 0x14A1, 0x0528, 0x37B3, 0x263A]
    case 11 => [0xDECD, 0xCF44, 0xFDDF, 0xEC56, 0x98E9, 0x8960, 0xBBFB, 0xAA72]
    case 12 => [0x6306, 0x728F, 0x4014, 0x519D, 0x2522, 0x34AB, 0x0630, 0x17B9]
    case 13 => [0xEF4E, 0xFEC7, 0xCC5C, 0xDDD5, 0xA96A, 0xB8E3, 0x8A78, 0x9BF1]
    case 14 => [0x7387, 0x620E, 0x5095, 0x411C, 0x35A3, 0x242A, 0x16B1, 0x0738]
    case 15 => [0xFFCF, 0xEE46, 0xDCDD, 0xCD54, 0xB9EB, 0xA862, 0x9AF9, 0x8B70]
    case 16 => [0x8408, 0x9581, 0xA71A, 0xB693, 0xC22C, 0xD3A5, 0xE13E, 0xF0B7]
    case 17 => [0x0840, 0x19C9, 0x2B52, 0x3ADB, 0x4E64, 0x5FED, 0x6D76, 0x7CFF]
    case 18 => [0x9489, 0x8500, 0xB79B, 0xA612, 0xD2AD, 0xC324, 0xF1BF, 0xE036]
    case 19 => [0x18C1, 0x0948, 0x3BD3, 0x2A5A, 0x5EE5, 0x4F6C, 0x7DF7, 0x6C7E]
    case 20 => [0xA50A, 0xB483, 0x8618, 0x9791, 0xE32E, 0xF2A7, 0xC03C, 0xD1B5]
    case 21 => [0x2942, 0x38CB, 0x0A50, 0x1BD9, 0x6F66, 0x7EEF, 0x4C74, 0x5DFD]
    case 22 => [0xB58B, 0xA402, 0x9699, 0x8710, 0xF3AF, 0xE226, 0xD0BD, 0xC134]
    case 23 => [0x39C3, 0x284A, 0x1AD1, 0x0B58, 0x7FE7, 0x6E6E, 0x5CF5, 0x4D7C]
    case 24 => [0xC60C, 0xD785, 0xE51E, 0xF497, 0x8028, 0x91A1, 0xA33A, 0xB2B3]
    case 25 => [0x4A44, 0x5BCD, 0x6956, 0x78DF, 0x0C60, 0x1DE9, 0x2F72, 0x3EFB]
    case 26 => [0xD68D, 0xC704, 0xF59F, 0xE416, 0x90A9, 0x8120, 0xB3BB, 0xA232]
    case 27 => [0x5AC5, 0x4B4C, 0x79D7, 0x685E, 0x1CE1, 0x0D68, 0x3FF3, 0x2E7A]
    case 28 => [0xE70E, 0xF687, 0xC41C, 0xD595, 0xA12A, 0xB0A3, 0x8238, 0x93B1]
    case 29 => [0x6B46, 0x7ACF, 0x4854, 0x59DD, 0x2D62, 0x3CEB, 0x0E70, 0x1FF9]
    case 30 => [0xF78F, 0xE606, 0xD49D, 0xC514, 0xB1AB, 0xA022, 0x92B9, 0x8330]
    case _ => [0x7BC7, 0x6A4E, 0x58D5, 0x495C, 0x3DE3, 0x2C6A, 0x1EF1, 0x0F78]
  }

  /** Eight entries each of `crc32_table`. */
  function Crc32cRow(k: nat): (r: seq<bv32>)
    requires k < 32
    ensures |r| == 8
  {
    match k
    case 0 => [0x00000000, 0xF26B8303, 0xE13B70F7, 0x1350F3F4, 0xC79A971F, 0x35F1141C, 0x26A1E7E8, 0xD4CA64EB]
    case 1 => [0x8AD958CF, 0x78B2DBCC, 0x6BE22838, 0x9989AB3B, 0x4D43CFD0, 0xBF284CD3, 0xAC78BF27, 0x5E133C24]
    case 2 => [0x105EC76F, 0xE235446C, 0xF165B798, 0x030E349B, 0xD7C45070, 0x25AFD373, 0x36FF2087, 0xC494A384]
    case 3 => [0x9A879FA0, 0x68EC1CA3, 0x7BBCEF57, 0x89D76C54, 0x5D1D08BF, 0xAF768BBC, 0xBC267848, 0x4E4DFB4B]
    case 4 => [0x20BD8EDE, 0xD2D60DDD, 0xC186FE29, 0x33ED7D2A, 0xE72719C1, 0x154C9AC2, 0x061C6936, 0xF477EA35]
    case 5 => [0xAA64D611, 0x580F5512, 0x4B5FA6E6, 0xB93425E5, 0x6DFE410E, 0x9F95C20D, 0x8CC531F9, 0x7EAEB2FA]
    case 6 => [0x30E349B1, 0xC288CAB2, 0xD1D83946, 0x23B3BA45, 0xF779DEAE, 0x05125DAD, 0x1642AE59, 0xE4292D5A]
    case 7 => [0xBA3A117E, 0x4851927D, 0x5B016189, 0xA96AE28A, 0x7DA08661, 0x8FCB0562, 0x9C9BF696, 0x6EF07595]
    case 8 => [0x417B1DBC, 0xB3109EBF, 0xA0406D4B, 0x522BEE48, 0x86E18AA3, 0x748A09A0, 0x67DAFA54, 0x95B17957]
    case 9 => [0xCBA24573, 0x39C9C670, 0x2A993584, 0xD8F2B687, 0x0C38D26C, 0xFE53516F, 0xED03A29B, 0x1F682198]
    case 10 => [0x5125DAD3, 0xA34E59D0, 0xB01EAA24, 0x42752927, 0x96BF4DCC, 0x64D4CECF, 0x77843D3B, 0x85EFBE38]
    case 11 => [0xDBFC821C, 0x2997011F, 0x3AC7F2EB, 0xC8AC71E8, 0x1C661503, 0xEE0D9600, 0xFD5D65F4, 0x0F36E6F7]
    case 12 => [0x61C69362, 0x93AD1061, 0x80FDE395, 0x72966096, 0xA65C047D, 0x5437877E, 0x4767748A, 0xB50CF789]
    case 13 => [0xEB1FCBAD, 0x197448AE, 0x0A24BB5A, 0xF84F3859, 0x2C855CB2, 0xDEEEDFB1, 0xCDBE2C45, 0x3FD5AF46]
    case 14 => [0x7198540D, 0x83F3D70E, 0x90A324FA, 0x62C8A7F9, 0xB602C312, 0x44694011, 0x5739B3E5, 0xA55230E6]
    case 15 => [0xFB410CC2, 0x092A8FC1, 0x1A7A7C35, 0xE811FF36, 0x3CDB9BDD, 0xCEB018DE, 0xDDE0EB2A, 0x2F8B6829]
    case 16 => [0x82F63B78, 0x709DB87B, 0x63CD4B8F, 0x91A6C88C, 0x456CAC67, 0xB7072F64, 0xA457DC90, 0x563C5F93]
    case 17 => [0x082F63B7, 0xFA44E0B4, 0xE9141340, 0x1B7F9043, 0xCFB5F4A8, 0x3DDE77AB, 0x2E8E845F, 0xDCE5075C]
    case 18 => [0x92A8FC17, 0x60C37F14, 0x73938CE0, 0x81F80FE3, 0x55326B08, 0xA759E80B, 0xB4091BFF, 0x466298FC]
    case 19 => [0x1871A4D8, 0xEA1A27DB, 0xF94AD42F, 0x0B21572C, 0xDFEB33C7, 0x2D80B0C4, 0x3ED04330, 0xCCBBC033]
    case 20 => [0xA24BB5A6, 0x502036A5, 0x4370C551, 0xB11B4652, 0x65D122B9, 0x97BAA1BA, 0x84EA524E, 0x7681D14D]
    case 21 => [0x2892ED69, 0xDAF96E6A, 0xC9A99D9E, 0x3BC21E9D, 0xEF087A76, 0x1D63F975, 0x0E330A81, 0xFC588982]
    case 22 => [0xB21572C9, 0x407EF1CA, 0x532E023E, 0xA145813D, 0x758FE5D6, 0x87E466D5, 0x94B49521, 0x66DF1622]
    case 23 => [0x38CC2A06, 0xCAA7A905, 0xD9F75AF1, 0x2B9CD9F2, 0xFF56BD19, 0x0D3D3E1A, 0x1E6DCDEE, 0xEC064EED]
    case 24 => [0xC38D26C4, 0x31E6A5C7, 0x22B65633, 0xD0DDD530, 0x0417B1DB, 0xF67C32D8, 0xE52CC12C, 0x1747422F]
    case 25 => [0x49547E0B, 0xBB3FFD08, 0xA86F0EFC, 0x5A048DFF, 0x8ECEE914, 0x7CA56A17, 0x6FF599E3, 0x9D9E1AE0]
    case 26 => [0xD3D3E1AB, 0x21B862A8, 0x32E8915C, 0xC083125F, 0x144976B4, 0xE622F5B7, 0xF5720643, 0x07198540]
    case 27 => [0x590AB964, 0xAB613A67, 0xB831C993, 0x4A5A4A90, 0x9E902E7B, 0x6CFBAD78, 0x7FAB5E8C, 0x8DC0DD8F]
    case 28 => [0xE330A81A, 0x115B2B19, 0x020BD8ED, 0xF0605BEE, 0x24AA3F05, 0xD6C1BC06, 0xC5914FF2, 0x37FACCF1]
    case 29 => [0x69E9F0D5, 0x9B8273D6, 0x88D28022, 0x7AB90321, 0xAE7367CA, 0x5C18E4C9, 0x4F48173D, 0xBD23943E]
    case 30 => [0xF36E6F75, 0x0105EC76, 0x12551F82, 0xE03E9C81, 0x34F4F86A, 0xC69F7B69, 0xD5CF889D, 0x27A40B9E]
    case _ => [0x79B737BA, 0x8BDCB4B9, 0x988C474D, 0x6AE7C44E, 0xBE2DA0A5, 0x4C4623A6, 0x5F16D052, 0xAD7D5351]
  }

  function Row(v: Version, k: nat): (r: seq<bv32>)
    requires k < 32
    ensures |r| == 8
  {
    match v case X25 => X25Row(k) case Crc32c => Crc32cRow(k)
  }

  function Entry(v: Version, i: nat): bv32
    requires i < 256
  {
    Row(v, i / 8)[i % 8]
  }

  // ---- What the words satisfy

  /** The reflected polynomial as a word. */
  function Reflected(v: Version): bv32 {
    match v case X25 => 0x8408 case Crc32c => 0x82F6_3B78
  }

  function Largest(v: Version): bv32 {
    match v case X25 => 0xFFFF case Crc32c => 0xFFFF_FFFF
  }

  function Added(x: bv32, y: bv32): bv32 {
    x ^ y
  }

  function Halved(x: bv32): bv32 {
    x >> 1
  }

  predicate Odd(x: bv32) {
    x & 1 == 1
  }

  /** One step of the division on a word. */
  function Step(x: bv32, p: bv32): bv32 {
    if Odd(x) then Added(Halved(x), p) else Halved(x)
  }

  /** The entries of a row at odd places are those before them with entry one added,
      and those at even places lead in one step to the entry at half the place. */
  predicate RowRight(row: seq<bv32>, half: seq<bv32>, odd: bool, one: bv32, p: bv32, largest: bv32)
    requires |row| == |half| == 8
  {
    var at := if odd then 4 else 0;
    && row[1] == Added(row[0], one) && row[3] == Added(row[2], one)
    && row[5] == Added(row[4], one) && row[7] == Added(row[6], one)
    && Step(row[0], p) == half[at] && Step(row[2], p) == half[at + 1]
    && Step(row[4], p) == half[at + 2] && Step(row[6], p) == half[at + 3]
    && row[0] <= largest && row[2] <= largest && row[4] <= largest && row[6] <= largest
  }

  predicate Right(v: Version, k: nat)
    requires k < 32
  {
    RowRight(Row(v, k), Row(v, k / 2), k % 2 == 1, Row(v, 0)[1], Reflected(v), Largest(v))
  }

  lemma X25Rows0()
    ensures Right(X25, 0) && Right(X25, 1) && Right(X25, 2) && Right(X25, 3)
  {
  }

  lemma X25Rows4()
    ensures Right(X25, 4) && Right(X25, 5) && Right(X25, 6) && Right(X25, 7)
  {
  }

  lemma X25Rows8()
    ensures Right(X25, 8) && Right(X25, 9) && Right(X25, 10) && Right(X25, 11)
  {
  }

  lemma X25Rows12()
    ensures Right(X25, 12) && Right(X25, 13) && Right(X25, 14) && Right(X25, 15)
  {
  }

  lemma X25Rows16()
    ensures Right(X25, 16) && Right(X25, 17) && Right(X25, 18) && Right(X25, 19)
  {
  }

  lemma X25Rows20()
    ensures Right(X25, 20) && Right(X25, 21) && Right(X25, 22) && Right(X25, 23)
  {
  }

  lemma X25Rows24()
    ensures Right(X25, 24) && Right(X25, 25) && Right(X25, 26) && Right(X25, 27)
  {
  }

  lemma X25Rows28()
    ensures Right(X25, 28) && Right(X25, 29) && Right(X25, 30) && Right(X25, 31)
  {
  }

  lemma Crc32cRows0()
    ensures Right(Crc32c, 0) && Right(Crc32c, 1) && Right(Crc32c, 2) && Right(Crc32c, 3)
  {
  }

  lemma Crc32cRows4()
    ensures Right(Crc32c, 4) && Right(Crc32c, 5) && Right(Crc32c, 6) && Right(Crc32c, 7)
  {
  }

  lemma Crc32cRows8()
    ensures Right(Crc32c, 8) && Right(Crc32c, 9) && Right(Crc32c, 10) && Right(Crc32c, 11)
  {
  }

  lemma Crc32cRows12()
    ensures Right(Crc32c, 12) && Right(Crc32c, 13) && Right(Crc32c, 14) && Right(Crc32c, 15)
  {
  }

  lemma Crc32cRows16()
    ensures Right(Crc32c, 16) && Right(Crc32c, 17) && Right(Crc32c, 18) && Right(Crc32c, 19)
  {
  }

  lemma Crc32cRows20()
    ensures Right(Crc32c, 20) && Right(Crc32c, 21) && Right(Crc32c, 22) && Right(Crc32c, 23)
  {
  }

  lemma Crc32cRows24()
    ensures Right(Crc32c, 24) && Right(Crc32c, 25) && Right(Crc32c, 26) && Right(Crc32c, 27)
  {
  }

  lemma Crc32cRows28()
    ensures Right(Crc32c, 28) && Right(Crc32c, 29) && Right(Crc32c, 30) && Right(Crc32c, 31)
  {
  }

  lemma RowsRight(v: Version, k: nat)
    requires k < 32
    ensures Right(v, k)
  {
    hide Right;
    match v
    case X25 =>
      if k < 4 { X25Rows0(); }
      else if k < 8 { X25Rows4(); }
      else if k < 12 { X25Rows8(); }
      else if k < 16 { X25Rows12(); }
      else if k < 20 { X25Rows16(); }
      else if k < 24 { X25Rows20(); }
      else if k < 28 { X25Rows24(); }
      else { X25Rows28(); }
    case Crc32c =>
      if k < 4 { Crc32cRows0(); }
      else if k < 8 { Crc32cRows4(); }
      else if k < 12 { Crc32cRows8(); }
      else if k < 16 { Crc32cRows12(); }
      else if k < 20 { Crc32cRows16(); }
      else if k < 24 { Crc32cRows20(); }
      else if k < 28 { Crc32cRows24(); }
      else { Crc32cRows28(); }
  }

  lemma FirstEntries(v: Version)
    ensures Entry(v, 0) == 0 && Entry(v, 128) == Reflected(v) && Entry(v, 1) <= Largest(v)
  {
  }

  /** The same by place in the table. */
  lemma OddEntry(v: Version, j: nat)
    requires j < 128
    ensures Entry(v, 2 * j + 1) == Added(Entry(v, 2 * j), Entry(v, 1))
  {
    hide Row, Step, Added;
    RowsRight(v, j / 4);
    Places(j);
    assert j % 4 == 0 || j % 4 == 1 || j % 4 == 2 || j % 4 == 3;
  }

  lemma EvenEntry(v: Version, j: nat)
    requires j < 128
    ensures Step(Entry(v, 2 * j), Reflected(v)) == Entry(v, j) && Entry(v, 2 * j) <= Largest(v)
  {
    hide Row, Step, Added;
    RowsRight(v, j / 4);
    Places(j);
    assert j % 4 == 0 || j % 4 == 1 || j % 4 == 2 || j % 4 == 3;
  }

  lemma Places(j: nat)
    requires j < 128
    ensures var k, m := j / 4, j % 4;
      && 2 * j / 8 == k && 2 * j % 8 == 2 * m && (2 * j + 1) / 8 == k && (2 * j + 1) % 8 == 2 * m + 1
      && j / 8 == k / 2 && j % 8 == (if k % 2 == 1 then 4 else 0) + m
  {
  }

  // ---- Bits of words

  function Twice(m: bv32): bv32 {
    m << 1
  }

  function Mask(i: nat): bv32 {
    if i == 0 then 1 else Twice(Mask(i - 1))
  }

  function Masked(x: bv32, m: bv32): bv32 {
    x & m
  }

  predicate Hits(x: bv32, m: bv32) {
    Masked(x, m) != 0
  }

  predicate Single(m: bv32) {
    m & (m - 1) == 0
  }

  function Bit(x: bv32, i: nat): bool {
    Hits(x, Mask(i))
  }

  /** The low `w` bits of a word. */
  function BitsOf(x: bv32, w: nat): (r: Bits)
    ensures |r| == w && forall i :: 0 <= i < w ==> r[i] == Bit(x, i)
  {
    seq(w, i requires 0 <= i < w => Bit(x, i))
  }

  lemma TwiceSingle(m: bv32)
    requires Single(m)
    ensures Single(Twice(m))
  {
  }

  lemma {:induction false} MaskSingle(i: nat)
    ensures Single(Mask(i))
  {
    hide Single, Twice;
    if i > 0 {
      MaskSingle(i - 1);
      TwiceSingle(Mask(i - 1));
    } else {
      OneSingle();
    }
  }

  lemma OneSingle()
    ensures Single(1)
  {
  }

  lemma SingleAnd(x: bv32, m: bv32)
    requires Single(m)
    ensures Masked(x, m) == 0 || Masked(x, m) == m
  {
  }

  lemma AndAdded(x: bv32, y: bv32, m: bv32)
    ensures Masked(Added(x, y), m) == Added(Masked(x, m), Masked(y, m))
  {
  }

  lemma HitsAdded(x: bv32, y: bv32, m: bv32)
    requires Single(m)
    ensures Hits(Added(x, y), m) <==> Hits(x, m) != Hits(y, m)
  {
    hide Added, Single, Masked;
    SingleAnd(x, m);
    SingleAnd(y, m);
    AndAdded(x, y, m);
    NothingAdded(Masked(x, m), Masked(y, m), m);
  }

  lemma NothingAdded(a: bv32, b: bv32, m: bv32)
    requires (a == 0 || a == m) && (b == 0 || b == m)
    ensures Added(a, b) != 0 <==> (a != 0) != (b != 0)
  {
    hide Added;
    AddedNothing(a);
    AddedNothing(b);
  }

  lemma AddedNothing(a: bv32)
    ensures Added(a, 0) == a && Added(0, a) == a && Added(a, a) == 0
  {
  }

  lemma HitsHalved(x: bv32, m: bv32)
    ensures Hits(Halved(x), m) <==> Hits(x, Twice(m))
  {
  }

  lemma ShiftBit(x: bv32, i: nat)
    ensures Bit(Halved(x), i) == Bit(x, i + 1)
  {
    hide Hits, Halved, Twice;
    HitsHalved(x, Mask(i));
  }

  lemma MaskValues()
    ensures Mask(15) == 0x8000 && Mask(16) == 0x1_0000 && Mask(31) == 0x8000_0000 && Mask(32) == 0
  {
    assert Mask(15) == 0x8000;
    assert Mask(16) == Twice(Mask(15));
    assert Mask(31) == 0x8000_0000;
    assert Mask(32) == Twice(Mask(31));
  }

  lemma XorBits(x: bv32, y: bv32, w: nat)
    ensures BitsOf(Added(x, y), w) == Xor(BitsOf(x, w), BitsOf(y, w))
  {
    hide Hits, Added, Xor, Mask, Single;
    forall i | 0 <= i < w ensures BitsOf(Added(x, y), w)[i] == Xor(BitsOf(x, w), BitsOf(y, w))[i] {
      MaskSingle(i);
      HitsAdded(x, y, Mask(i));
    }
  }

  lemma ShiftBits(x: bv32, w: nat)
    requires w > 0 && !Bit(x, w)
    ensures BitsOf(Halved(x), w) == BitsOf(x, w)[1..] + [false]
  {
    hide Bit, Halved;
    forall i | 0 <= i < w ensures BitsOf(Halved(x), w)[i] == (BitsOf(x, w)[1..] + [false])[i] {
      ShiftBit(x, i);
    }
  }

  lemma LowestBit(x: bv32)
    ensures Bit(x, 0) <==> Odd(x)
  {
  }

  /** A step on words is a step on bits, where nothing comes in at the top. */
  lemma StepDown(x: bv32, p: bv32, w: nat)
    requires w > 0 && !Bit(x, w)
    ensures BitsOf(Step(x, p), w) == Down(BitsOf(x, w), BitsOf(p, w))
  {
    hide Bit, Xor, Added, Halved, Odd;
    ShiftBits(x, w);
    LowestBit(x);
    XorBits(Halved(x), p, w);
  }

  predicate High(m: bv32) {
    m & 0xFFFF == 0
  }

  lemma TwiceHigh(m: bv32)
    requires High(m)
    ensures High(Twice(m))
  {
  }

  lemma {:induction false} MaskHigh(i: nat)
    requires i >= 16
    ensures High(Mask(i))
  {
    hide Twice;
    if i == 16 {
      MaskValues();
    } else {
      hide High;
      MaskHigh(i - 1);
      TwiceHigh(Mask(i - 1));
    }
  }

  lemma SmallMisses(x: bv32, m: bv32)
    requires x <= 0xFFFF && High(m)
    ensures !Hits(x, m)
  {
  }

  /** No entry has bits above the width. */
  lemma NoHighBits(v: Version, x: bv32, i: nat)
    requires x <= Largest(v) && Width(v) <= i
    ensures !Bit(x, i)
  {
    match v
    case X25 =>
      MaskHigh(i);
      SmallMisses(x, Mask(i));
    case Crc32c =>
      MaskNone(i);
  }

  lemma {:induction false} MaskNone(i: nat)
    requires i >= 32
    ensures Mask(i) == 0
  {
    if i == 32 {
      MaskValues();
    } else {
      MaskNone(i - 1);
    }
  }

  // ---- Octets and their halves

  lemma {:induction false} ToBitsPrefix(n: nat, w: nat)
    ensures ToBits(n, w + 1)[..w] == ToBits(n, w)
  {
    if w > 0 {
      ToBitsPrefix(n / 2, w - 1);
      var rest := ToBits(n / 2, w);
      assert ([n % 2 == 1] + rest)[..w] == [n % 2 == 1] + rest[..w - 1];
    }
  }

  lemma {:induction false} ToBitsTop(n: nat, w: nat)
    requires n < PowerOf2(w)
    ensures !ToBits(n, w + 1)[w]
  {
    if w > 0 {
      ToBitsTop(n / 2, w - 1);
    } else {
      assert n == 0;
    }
  }

  lemma OctetHalf(j: nat)
    requires j < 128
    ensures Octet(2 * j) == [false] + Octet(j)[..7] && !Octet(j)[7]
  {
    ToBitsPrefix(j, 7);
    assert PowerOf2(7) == 128;
    ToBitsTop(j, 7);
    assert 2 * j % 2 == 0 && 2 * j / 2 == j;
  }

  lemma OctetOdd(j: nat)
    requires j < 128
    ensures Octet(2 * j + 1) == Xor(Octet(2 * j), Octet(1))
  {
    hide ToBits;
    ToBitsCons(2 * j + 1, 7);
    ToBitsCons(2 * j, 7);
    ToBitsCons(1, 7);
    ToBitsZero(7);
    assert (2 * j + 1) % 2 == 1 && (2 * j + 1) / 2 == j && 2 * j % 2 == 0 && 2 * j / 2 == j;
    assert Xor([false] + ToBits(j, 7), [true] + Zeros(7)) == [true] + ToBits(j, 7);
  }

  lemma ToBitsCons(n: nat, w: nat)
    ensures ToBits(n, w + 1) == [n % 2 == 1] + ToBits(n / 2, w)
  {
  }

  lemma {:induction false} ToBitsZero(w: nat)
    ensures ToBits(0, w) == Zeros(w)
  {
    if w > 0 {
      ToBitsZero(w - 1);
    }
  }

  lemma {:induction false} DownByLast(x: Bits, poly: Bits, n: nat)
    requires |x| == |poly| > 0
    ensures DownBy(x, poly, n + 1) == Down(DownBy(x, poly, n), poly)
    decreases n
  {
    hide Down;
    if n > 0 {
      DownByLast(Down(x, poly), poly, n - 1);
    }
  }

  lemma DownByFirst(x: Bits, poly: Bits, n: nat)
    requires |x| == |poly| > 0 && n > 0
    ensures DownBy(x, poly, n) == DownBy(Down(x, poly), poly, n - 1)
  {
  }

  /** The remainder of twice an octet is one step before that of the octet. */
  lemma EntryHalf(j: nat, poly: Bits)
    requires j < 128 && |poly| >= 8
    ensures Down(LowEntry(Octet(2 * j), poly), poly) == LowEntry(Octet(j), poly)
  {
    hide DownBy, Octet;
    var w := |poly|;
    var x, y := Low(Octet(2 * j), w), Low(Octet(j), w);
    OctetHalf(j);
    assert x[1..] + [false] == y;
    assert Down(x, poly) == y;
    DownByFirst(x, poly, 8);
    DownByLast(y, poly, 7);
  }

  lemma EntryOdd(j: nat, poly: Bits)
    requires j < 128 && |poly| >= 8
    ensures LowEntry(Octet(2 * j + 1), poly) == Xor(LowEntry(Octet(2 * j), poly), LowEntry(Octet(1), poly))
  {
    hide DownBy, Octet, Xor;
    var w := |poly|;
    OctetOdd(j);
    assert Low(Xor(Octet(2 * j), Octet(1)), w) == Xor(Low(Octet(2 * j), w), Low(Octet(1), w)) by {
      XorWide(Octet(2 * j), Octet(1), w - 8);
    }
    DownByLinear(Low(Octet(2 * j), w), Low(Octet(1), w), poly, 8);
  }

  lemma EntryTop(poly: Bits)
    requires |poly| >= 8
    ensures LowEntry(Octet(128), poly) == poly
  {
    hide DownBy, Xor;
    var w := |poly|;
    var x := Low(Octet(128), w);
    assert Octet(128) == [false, false, false, false, false, false, false, true];
    DownShifts(x, poly, 7);
    var y := x[7..] + Zeros(7);
    DownByLast(x, poly, 7);
    assert y[0] && y[1..] + [false] == Zeros(w);
    assert Xor(Zeros(w), poly) == poly;
  }

  lemma EntryZero(poly: Bits)
    requires |poly| >= 8
    ensures LowEntry(Octet(0), poly) == Zeros(|poly|)
  {
    hide DownBy, ToBits;
    ToBitsZero(8);
    var x := Low(Octet(0), |poly|);
    assert x == Zeros(|poly|);
    DownShifts(x, poly, 8);
    assert x[8..] + Zeros(8) == Zeros(|poly|);
  }

  // ---- The tables are right

  ghost predicate Correct(v: Version, i: nat)
    requires i < 256
  {
    BitsOf(Entry(v, i), Width(v)) == LowEntry(Octet(i), BitsOf(Reflected(v), Width(v)))
  }

  lemma StepCorrect(v: Version, j: nat)
    requires j < 128
    ensures var w := Width(v);
      BitsOf(Entry(v, j), w) == Down(BitsOf(Entry(v, 2 * j), w), BitsOf(Reflected(v), w))
  {
    hide Entry, Reflected, Bit, BitsOf, Step;
    EvenEntry(v, j);
    NoHighBits(v, Entry(v, 2 * j), Width(v));
    StepDown(Entry(v, 2 * j), Reflected(v), Width(v));
  }

  lemma HalfCorrect(v: Version, j: nat)
    requires j < 128 && Correct(v, 2 * j)
    ensures Correct(v, j)
  {
    hide Entry, Reflected, BitsOf, LowEntry, Down;
    StepCorrect(v, j);
    EntryHalf(j, BitsOf(Reflected(v), Width(v)));
  }

  lemma OneCorrect(v: Version)
    ensures Correct(v, 1)
  {
    hide Correct;
    TopCorrect(v);
    HalfCorrect(v, 64);
    HalfCorrect(v, 32);
    HalfCorrect(v, 16);
    HalfCorrect(v, 8);
    HalfCorrect(v, 4);
    HalfCorrect(v, 2);
    HalfCorrect(v, 1);
  }

  lemma TopCorrect(v: Version)
    ensures Correct(v, 128)
  {
    hide Entry, Reflected, BitsOf, LowEntry;
    FirstEntries(v);
    EntryTop(BitsOf(Reflected(v), Width(v)));
  }

  lemma ReflectedTop(v: Version)
    ensures Bit(Reflected(v), Width(v) - 1)
  {
    hide Mask;
    MaskValues();
  }

  lemma ZeroCorrect(v: Version)
    ensures Correct(v, 0)
  {
    hide Entry, Reflected, LowEntry;
    FirstEntries(v);
    EntryZero(BitsOf(Reflected(v), Width(v)));
    assert BitsOf(0, Width(v)) == Zeros(Width(v));
  }

  lemma {:induction false} EntryCorrect(v: Version, i: nat)
    requires i < 256
    ensures Correct(v, i)
  {
    hide Entry, Reflected, BitsOf, LowEntry, Down, Correct;
    if i == 0 {
      ZeroCorrect(v);
    } else if i == 1 {
      OneCorrect(v);
    } else if i % 2 == 0 {
      EntryCorrect(v, i / 2);
      DoubleCorrect(v, i / 2);
    } else {
      EntryCorrect(v, i - 1);
      OneCorrect(v);
      OddCorrect(v, i / 2);
    }
  }

  lemma DoubleCorrect(v: Version, j: nat)
    requires j < 128 && Correct(v, j)
    ensures Correct(v, 2 * j)
  {
    hide Entry, Reflected, Bit, LowEntry, Down;
    var w := Width(v);
    var poly := BitsOf(Reflected(v), w);
    StepCorrect(v, j);
    EntryHalf(j, poly);
    ReflectedTop(v);
    DownInjective(BitsOf(Entry(v, 2 * j), w), LowEntry(Octet(2 * j), poly), poly);
  }

  lemma OddCorrect(v: Version, j: nat)
    requires j < 128 && Correct(v, 2 * j) && Correct(v, 1)
    ensures Correct(v, 2 * j + 1)
  {
    hide Entry, Reflected, BitsOf, LowEntry, Octet, Xor, Added;
    OddEntry(v, j);
    XorBits(Entry(v, 2 * j), Entry(v, 1), Width(v));
    EntryOdd(j, BitsOf(Reflected(v), Width(v)));
  }

  /** The words are those of the polynomials of the published models. */
  lemma ReflectedIsMirrored(v: Version)
    ensures BitsOf(Reflected(v), Width(v)) == Mirror(Polynomial(v))
  {
    match v
    case X25 => X25Mirrored();
    case Crc32c => Crc32cMirrored();
  }

  /** Four bits of a number, and of a word, at once. */
  lemma FourBits(n: nat, w: nat)
    ensures ToBits(n, w + 4)
            == [n % 2 == 1, n / 2 % 2 == 1, n / 4 % 2 == 1, n / 8 % 2 == 1] + ToBits(n / 16, w)
  {
    hide ToBits;
    ToBitsCons(n, w + 3);
    ToBitsCons(n / 2, w + 2);
    ToBitsCons(n / 4, w + 1);
    ToBitsCons(n / 8, w);
    assert n / 2 / 2 == n / 4 && n / 4 / 2 == n / 8 && n / 8 / 2 == n / 16;
  }

  lemma BitsCons(x: bv32, w: nat)
    ensures BitsOf(x, w + 1) == [Odd(x)] + BitsOf(Halved(x), w)
  {
    hide Bit, Odd, Halved;
    LowestBit(x);
    forall i | 1 <= i < w + 1 ensures BitsOf(x, w + 1)[i] == ([Odd(x)] + BitsOf(Halved(x), w))[i] {
      ShiftBit(x, i - 1);
    }
  }

  lemma FourOf(x: bv32, w: nat)
    ensures var y := Halved(x);
      var z := Halved(y);
      BitsOf(x, w + 4) == [Odd(x), Odd(y), Odd(z), Odd(Halved(z))] + BitsOf(Halved(Halved(z)), w)
  {
    hide BitsOf, Odd, Halved;
    var y := Halved(x);
    var z := Halved(y);
    BitsCons(x, w + 3);
    BitsCons(y, w + 2);
    BitsCons(z, w + 1);
    BitsCons(Halved(z), w);
    FourInFront(Odd(x), Odd(y), Odd(z), Odd(Halved(z)), BitsOf(Halved(Halved(z)), w));
  }

  lemma FourInFront(a: bool, b: bool, c: bool, d: bool, rest: Bits)
    ensures [a] + ([b] + ([c] + ([d] + rest))) == [a, b, c, d] + rest
  {
  }

  lemma X25Bits()
    ensures ToBits(0x1021, 16) == [true, false, false, false, false, true, false, false,
                                   false, false, false, false, true, false, false, false]
    ensures BitsOf(0x8408, 16) == [false, false, false, true, false, false, false, false,
                                   false, false, true, false, false, false, false, true]
  {
    hide ToBits, BitsOf;
    FourBits(0x1021, 12);
    FourBits(0x102, 8);
    FourBits(0x10, 4);
    FourBits(0x1, 0);
    FourOf(0x8408, 12);
    FourOf(0x840, 8);
    FourOf(0x84, 4);
    FourOf(0x8, 0);
    NoBits();
  }

  lemma NoBits()
    ensures ToBits(0, 0) == [] && BitsOf(0, 0) == []
  {
  }

  lemma X25Mirrored()
    ensures BitsOf(0x8408, 16) == Mirror(ToBits(0x1021, 16))
  {
    hide ToBits, BitsOf;
    X25Bits();
  }

  lemma Crc32cLow()
    ensures ToBits(0x1EDC_6F41, 32) == [true, false, false, false, false, false, true, false,
                                        true, true, true, true, false, true, true, false] + ToBits(0x1EDC, 16)
    ensures BitsOf(0x82F6_3B78, 32) == [false, false, false, true, true, true, true, false,
                                        true, true, false, true, true, true, false, false] + BitsOf(0x82F6, 16)
  {
    hide ToBits, BitsOf;
    FourBits(0x1EDC6F41, 28);
    FourBits(0x1EDC6F4, 24);
    FourBits(0x1EDC6F, 20);
    FourBits(0x1EDC6, 16);
    FourOf(0x82F63B78, 28);
    FourOf(0x82F63B7, 24);
    FourOf(0x82F63B, 20);
    FourOf(0x82F63, 16);
  }

  lemma Crc32cHigh()
    ensures ToBits(0x1EDC, 16) == [false, false, true, true, true, false, true, true,
                                   false, true, true, true, true, false, false, false]
    ensures BitsOf(0x82F6, 16) == [false, true, true, false, true, true, true, true,
                                   false, true, false, false, false, false, false, true]
  {
    hide ToBits, BitsOf;
    FourBits(0x1EDC, 12);
    FourBits(0x1ED, 8);
    FourBits(0x1E, 4);
    FourBits(0x1, 0);
    FourOf(0x82F6, 12);
    FourOf(0x82F, 8);
    FourOf(0x82, 4);
    FourOf(0x8, 0);
    NoBits();
  }

  lemma Crc32cMirrored()
    ensures BitsOf(0x82F6_3B78, 32) == Mirror(ToBits(0x1EDC_6F41, 32))
  {
    hide ToBits, BitsOf;
    Crc32cLow();
    Crc32cHigh();
  }

  /** A table for registers of the checksum's width. */
  function Table(v: Version): (r: seq<Bits>) {
    seq(256, i requires 0 <= i < 256 => BitsOf(Entry(v, i), Width(v)))
  }

  /** The literal tables of the source are the tables of remainders. */
  lemma TableCorrect(v: Version)
    ensures IsReflectedTable(Table(v), Mirror(Polynomial(v)))
  {
    hide Entry, BitsOf, LowEntry, Polynomial, Reflected;
    ReflectedIsMirrored(v);
    forall i | 0 <= i < 256 ensures Table(v)[i] == LowEntry(Octet(i), Mirror(Polynomial(v))) {
      EntryCorrect(v, i);
    }
  }

  /** The table of 32-bit words. */
  function WideTable(v: Version): (r: seq<Bits>) {
    seq(256, i requires 0 <= i < 256 => BitsOf(Entry(v, i), 32))
  }

  lemma EntrySmall(v: Version, i: nat)
    requires i < 256
    ensures Entry(v, i) <= Largest(v)
  {
    hide Entry, Added, Step;
    FirstEntries(v);
    EvenEntry(v, i / 2);
    if i % 2 == 1 {
      OddEntry(v, i / 2);
      XorSmall(v, Entry(v, i - 1), Entry(v, 1));
    }
  }

  lemma XorSmall(v: Version, x: bv32, y: bv32)
    requires x <= Largest(v) && y <= Largest(v)
    ensures Added(x, y) <= Largest(v)
  {
  }

  lemma WideEntry(v: Version, i: nat)
    requires i < 256
    ensures BitsOf(Entry(v, i), 32) == BitsOf(Entry(v, i), Width(v)) + Zeros(32 - Width(v))
  {
    hide Entry, Bit;
    EntrySmall(v, i);
    forall k | Width(v) <= k < 32 ensures !Bit(Entry(v, i), k) {
      NoHighBits(v, Entry(v, i), k);
    }
  }

  lemma WideTableCorrect(v: Version)
    ensures IsReflectedTable(WideTable(v), Mirror(Polynomial(v)) + Zeros(32 - Width(v)))
  {
    hide Entry, BitsOf, LowEntry, Polynomial, Octet;
    TableCorrect(v);
    var poly, extra := Mirror(Polynomial(v)), 32 - Width(v);
    forall i | 0 <= i < 256 ensures WideTable(v)[i] == LowEntry(Octet(i), poly + Zeros(extra)) {
      assert Table(v)[i] == LowEntry(Octet(i), poly);
      WideEntry(v, i);
      LowEntryWide(Octet(i), poly, extra);
    }
  }

  lemma LowEntryWide(octet: Bits, poly: Bits, extra: nat)
    requires |octet| == 8 <= |poly|
    ensures LowEntry(octet, poly + Zeros(extra)) == LowEntry(octet, poly) + Zeros(extra)
  {
    hide DownBy;
    var w := |poly|;
    assert Low(octet, w + extra) == Low(octet, w) + Zeros(extra);
    DownByWide(Low(octet, w), poly, extra, 8);
  }
}
