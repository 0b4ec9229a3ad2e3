/**
 * The device identity (storage/bitchat_identity.c): the peer id taken from
 * the Noise public key, the default nickname printed from it, the nickname
 * accessors, the zeroing of the private keys on release, and the test a
 * stored record must pass to be loaded. The hardware random words are a
 * parameter; the file system calls are left out, and a stored file is the
 * byte sequence it holds.
 */
module Identity {
  import opened Bytes
  import opened Wrappers
  import opened CString
  import opened MessageId

  const IdentityVersion: Byte := 1
  const PeerIdSize: nat := 8
  const KeySize: nat := 32
  const NicknameSize: nat := 32
  /** The characters the nickname array keeps before its terminator. */
  const NicknameCapacity: nat := 31
  /** sizeof(BitchatIdentity): a version byte, the peer id, four keys and the nickname, all byte arrays, so no padding. */
  const RecordSize: nat := 1 + 8 + 4 * 32 + 32
  /** The random words bitchat_identity_create draws: two per byte of each key pair. */
  const RandomWords: nat := 4 * 32

  /** "flipper_" */
  const NicknamePrefix: seq<Byte> := [102, 108, 105, 112, 112, 101, 114, 95]

  /** A key filled from every other random word from `first` on, each cut to its low byte. */
  function KeyFill(random: seq<U32>, first: nat): (k: seq<Byte>)
    requires first + 2 * KeySize <= |random| + 1
    ensures |k| == KeySize
    ensures forall i :: 0 <= i < KeySize ==> k[i] == random[first + 2 * i] % 256
  {
    seq(KeySize, i requires 0 <= i < KeySize => random[first + 2 * i] % 256)
  }

  /** "flipper_%02x%02x%02x%02x" of the first four peer-id bytes: 16 characters, the prefix first, so snprintf never cuts it. */
  function DefaultNickname(peerId: seq<Byte>): (r: seq<Byte>)
    requires |peerId| >= 4
    ensures |r| == 16 && |r| <= NicknameCapacity && r[..|NicknamePrefix|] == NicknamePrefix
  {
    NicknamePrefix + Hex(peerId[0], 2) + Hex(peerId[1], 2) + Hex(peerId[2], 2) + Hex(peerId[3], 2)
  }

  /**
   * The default nickname is 16 characters, so snprintf never cuts it, and it
   * is "flipper_" followed by two lowercase hex digits per peer-id byte, which
   * give that byte back.
   */
  lemma DefaultNicknameShape(peerId: seq<Byte>)
    requires |peerId| >= 4
    ensures var r := DefaultNickname(peerId);
            && |r| == 16 && |r| <= NicknameCapacity && NulFree(r)
            && r[..8] == NicknamePrefix
            && forall k :: 0 <= k < 4 ==> HexDigits(r[8 + 2 * k..10 + 2 * k]) && HexValue(r[8 + 2 * k..10 + 2 * k]) == peerId[k]
  {
    var r := DefaultNickname(peerId);
    NicknameParts(peerId);
    forall k | 0 <= k < 4
      ensures HexDigits(r[8 + 2 * k..10 + 2 * k]) && HexValue(r[8 + 2 * k..10 + 2 * k]) == peerId[k]
    {
      HexByte(peerId[k]);
    }
    forall i | 8 <= i < 16
      ensures r[i] != Nul
    {
      var k := (i - 8) / 2;
      assert r[i] == r[8 + 2 * k..10 + 2 * k][i - 8 - 2 * k];
    }
  }

  /** Where each printed byte lies in the nickname. */
  lemma NicknameParts(peerId: seq<Byte>)
    requires |peerId| >= 4
    ensures var r := DefaultNickname(peerId);
            && |r| == 16 && r[..8] == NicknamePrefix
            && forall k :: 0 <= k < 4 ==> r[8 + 2 * k..10 + 2 * k] == Hex(peerId[k], 2)
  {
    var r := DefaultNickname(peerId);
    var h0, h1, h2, h3 := Hex(peerId[0], 2), Hex(peerId[1], 2), Hex(peerId[2], 2), Hex(peerId[3], 2);
    assert r == NicknamePrefix + h0 + h1 + h2 + h3;
    assert r[8..10] == h0;
    assert r[10..12] == h1;
    assert r[12..14] == h2;
    var front := NicknamePrefix + h0 + h1 + h2;
    assert |front| == 14 && r == front + h3;
    assert r[14..] == h3;
    assert r[14..16] == h3;
  }

  /** `%02x` of a byte: two digits that read back as the byte. */
  lemma HexByte(b: Byte)
    ensures HexDigits(Hex(b, 2)) && HexValue(Hex(b, 2)) == b
  {
    assert Pow16(2) == 256;
    HexRoundTrip(b, 2);
  }

  /** A C string in an n-byte array whose bytes after it are all NUL, as strncpy and a zeroed record leave them. */
  function Padded(s: seq<Byte>, n: nat): (r: seq<Byte>)
    requires |s| <= n
    ensures |r| == n
  {
    s + seq(n - |s|, _ => Nul)
  }

  /** The string read back from a padded array is the string written. */
  lemma CStrPadded(s: seq<Byte>, n: nat)
    requires NulFree(s) && |s| < n
    ensures CStr(Padded(s, n)) == s
  {
    var raw := Padded(s, n);
    assert raw[..|s|] == s;
    CStrEndsAt(raw, |s|);
  }

  /** The identity record as a value: the fields of BitchatIdentity in their order, the nickname as its raw 32 bytes. */
  datatype Record = Record(
    version: Byte,
    peerId: seq<Byte>,
    noisePrivateKey: seq<Byte>,
    noisePublicKey: seq<Byte>,
    signingPrivateKey: seq<Byte>,
    signingPublicKey: seq<Byte>,
    nickname: seq<Byte>)

  predicate WellSized(r: Record)
  {
    && |r.peerId| == PeerIdSize
    && |r.noisePrivateKey| == KeySize && |r.noisePublicKey| == KeySize
    && |r.signingPrivateKey| == KeySize && |r.signingPublicKey| == KeySize
    && |r.nickname| == NicknameSize
  }

  /** The bytes bitchat_identity_save writes: the record's memory image. */
  function RecordBytes(r: Record): (b: seq<Byte>)
    requires WellSized(r)
    ensures |b| == RecordSize && b[0] == r.version
  {
    [r.version] + r.peerId + r.noisePrivateKey + r.noisePublicKey + r.signingPrivateKey + r.signingPublicKey + r.nickname
  }

  /** The record laid over the first sizeof(BitchatIdentity) bytes read. */
  function RecordOf(b: seq<Byte>): (r: Record)
    requires |b| == RecordSize
    ensures WellSized(r) && r.version == b[0]
  {
    Record(b[0], b[1..9], b[9..41], b[41..73], b[73..105], b[105..137], b[137..169])
  }

  /**
   * bitchat_identity_load: no file gives nothing; otherwise up to
   * sizeof(BitchatIdentity) bytes are read, and the record is kept only when
   * that many were read and its version byte is 1.
   */
  function Load(file: Option<seq<Byte>>): (r: Option<Record>)
    ensures r.Some? ==> WellSized(r.value) && r.value.version == IdentityVersion
  {
    match file
    case None => None
    case Some(content) =>
      var bytesRead := if |content| < RecordSize then |content| else RecordSize;
      if bytesRead == RecordSize && content[0] == IdentityVersion then Some(RecordOf(content[..RecordSize])) else None
  }

  /** A file is loaded exactly when it holds at least a whole record and starts with version 1; bytes past the record are not read. */
  lemma LoadAcceptance(content: seq<Byte>)
    ensures Load(Some(content)).Some? <==> |content| >= RecordSize && content[0] == IdentityVersion
    ensures Load(None) == None
  {
  }

  /** What bitchat_identity_save writes, bitchat_identity_load reads back. */
  lemma LoadRoundTrip(r: Record, rest: seq<Byte>)
    requires WellSized(r) && r.version == IdentityVersion
    ensures Load(Some(RecordBytes(r) + rest)) == Some(r)
  {
    var b := RecordBytes(r);
    assert (b + rest)[..RecordSize] == b;
    assert b[1..9] == r.peerId;
    assert b[9..41] == r.noisePrivateKey;
    assert b[41..73] == r.noisePublicKey;
    assert b[73..105] == r.signingPrivateKey;
    assert b[105..137] == r.signingPublicKey;
    var front := [r.version] + r.peerId + r.noisePrivateKey + r.noisePublicKey + r.signingPrivateKey + r.signingPublicKey;
    assert |front| == 137 && b == front + r.nickname;
    assert b[137..169] == r.nickname;
  }

  /** A record of the wrong version is refused, however long the file. */
  lemma WrongVersionRefused(r: Record, rest: seq<Byte>)
    requires WellSized(r) && r.version != IdentityVersion
    ensures Load(Some(RecordBytes(r) + rest)) == None
  {
    assert (RecordBytes(r) + rest)[0] == r.version;
  }

  /** bitchat_identity_get_nickname's outcome for a stored nickname string and a buffer of `size` bytes. */
  function NicknameInto(stored: seq<Byte>, size: nat): (r: Option<seq<Byte>>)
    requires NulFree(stored) && size >= 1
    ensures r == None <==> stored == []
    ensures r.Some? ==> && |r.value| <= size - 1 && |r.value| <= |stored| && NulFree(r.value)
                        && r.value == stored[..|r.value|]
                        && (|stored| <= size - 1 ==> r.value == stored)
                        && (|stored| > size - 1 ==> |r.value| == size - 1)
  {
    if stored == [] then None else Some(StrNCopy(stored, size - 1))
  }

  /** What bitchat_identity_get_nickname does as written: a copy, or a read past the end of the record. */
  datatype NicknameRead = Read(value: Option<seq<Byte>>) | ReadPastRecord

  /**
   * The record in memory, created or loaded: keys and the nickname array in
   * place, the rest fixed when the record is made. A loaded record's nickname
   * need not hold a terminator: load checks only the size and the version.
   */
  class Identity {
    const version: Byte
    const peerId: seq<Byte>
    const noisePublicKey: seq<Byte>
    const signingPublicKey: seq<Byte>
    const noisePrivateKey: array<Byte>
    const signingPrivateKey: array<Byte>
    const nickname: array<Byte>

    ghost predicate Valid()
      reads this, nickname
    {
      && |peerId| == PeerIdSize && |noisePublicKey| == KeySize && |signingPublicKey| == KeySize
      && noisePrivateKey.Length == KeySize && signingPrivateKey.Length == KeySize
      && nickname.Length == NicknameSize
      && noisePrivateKey != signingPrivateKey && nickname != noisePrivateKey && nickname != signingPrivateKey
    }

    /** The last byte of the nickname array is a terminator, as create and set_nickname leave it. */
    predicate Terminated()
      reads this, nickname
      requires Valid()
    {
      nickname[NicknameCapacity] == Nul
    }

    /**
     * The nickname as a C string: at most 31 characters when the array is
     * terminated, and all 32 bytes exactly when the array holds no NUL.
     */
    function Nickname(): (s: seq<Byte>)
      reads this, nickname
      requires Valid()
      ensures NulFree(s) && |s| <= NicknameSize
      ensures Terminated() ==> |s| <= NicknameCapacity
      ensures |s| == NicknameSize <==> NulFree(nickname[..])
    {
      CStr(nickname[..])
    }

    /** The record's value, as it would be saved. */
    function AsRecord(): (r: Record)
      reads this, noisePrivateKey, signingPrivateKey, nickname
      requires Valid()
      ensures WellSized(r)
    {
      Record(version, peerId, noisePrivateKey[..], noisePublicKey, signingPrivateKey[..], signingPublicKey, nickname[..])
    }

    /**
     * bitchat_identity_create: a zeroed record of version 1; the four keys
     * filled byte by byte from the random words (noise private and public
     * alternating, then the signing pair); the peer id the first 8 bytes of the
     * Noise public key; the default nickname printed from the peer id.
     */
    constructor Create(random: seq<U32>)
      requires |random| == RandomWords
      ensures Valid() && fresh(noisePrivateKey) && fresh(signingPrivateKey) && fresh(nickname)
      ensures version == IdentityVersion
      ensures noisePrivateKey[..] == KeyFill(random, 0) && noisePublicKey == KeyFill(random, 1)
      ensures signingPrivateKey[..] == KeyFill(random, 2 * KeySize) && signingPublicKey == KeyFill(random, 2 * KeySize + 1)
      ensures peerId == noisePublicKey[..PeerIdSize]
      ensures Nickname() == DefaultNickname(peerId) && Terminated()
      ensures nickname[..] == Padded(DefaultNickname(peerId), NicknameSize)
    {
      var noisePriv, noisePub := FillKeyPair(random, 0);
      var signingPriv, signingPub := FillKeyPair(random, 2 * KeySize);
      var id := noisePub[..PeerIdSize];
      DefaultNicknameShape(id);
      var nick := NicknameArray(DefaultNickname(id));
      version := IdentityVersion;
      peerId := id;
      noisePrivateKey := noisePriv;
      noisePublicKey := noisePub[..];
      signingPrivateKey := signingPriv;
      signingPublicKey := signingPub[..];
      nickname := nick;
    }

    /**
     * The record bitchat_identity_load returns: the bytes read laid over a
     * fresh struct, for a record that Load accepted.
     */
    constructor Loaded(r: Record)
      requires WellSized(r) && r.version == IdentityVersion
      ensures Valid() && AsRecord() == r
      ensures fresh(noisePrivateKey) && fresh(signingPrivateKey) && fresh(nickname)
    {
      var noisePriv := CopyOf(r.noisePrivateKey);
      var signingPriv := CopyOf(r.signingPrivateKey);
      var nick := CopyOf(r.nickname);
      version := r.version;
      peerId := r.peerId;
      noisePrivateKey := noisePriv;
      noisePublicKey := r.noisePublicKey;
      signingPrivateKey := signingPriv;
      signingPublicKey := r.signingPublicKey;
      nickname := nick;
    }

    /** A fresh array holding the bytes of s. */
    static method CopyOf(s: seq<Byte>) returns (a: array<Byte>)
      ensures fresh(a) && a[..] == s
    {
      a := new Byte[|s|];
      forall i | 0 <= i < |s| {
        a[i] := s[i];
      }
    }

    /**
     * One of bitchat_identity_create's key loops: byte i of the private key from
     * word first + 2i, byte i of the public key from the word after it.
     */
    static method FillKeyPair(random: seq<U32>, first: nat) returns (priv: array<Byte>, pub: array<Byte>)
      requires first + 2 * KeySize <= |random|
      ensures fresh(priv) && fresh(pub) && priv != pub
      ensures priv[..] == KeyFill(random, first) && pub[..] == KeyFill(random, first + 1)
    {
      priv := new Byte[KeySize];
      pub := new Byte[KeySize];
      var i := 0;
      while i < KeySize
        invariant 0 <= i <= KeySize
        invariant forall j :: 0 <= j < i ==> priv[j] == random[first + 2 * j] % 256
        invariant forall j :: 0 <= j < i ==> pub[j] == random[first + 1 + 2 * j] % 256
      {
        priv[i] := random[first + 2 * i] % 256;
        pub[i] := random[first + 1 + 2 * i] % 256;
        i := i + 1;
      }
    }

    /** The zeroed nickname array after snprintf has printed the default nickname into it. */
    static method NicknameArray(name: seq<Byte>) returns (nick: array<Byte>)
      requires NulFree(name) && |name| <= NicknameCapacity
      ensures fresh(nick) && nick.Length == NicknameSize
      ensures nick[..] == Padded(name, NicknameSize) && CStr(nick[..]) == name
    {
      nick := new Byte[NicknameSize](_ => Nul);
      forall j | 0 <= j < |name| {
        nick[j] := name[j];
      }
      assert nick[..] == Padded(name, NicknameSize);
      CStrPadded(name, NicknameSize);
    }

    /** bitchat_identity_free: both private keys are zeroed before the record is released. */
    method Free()
      requires Valid()
      modifies noisePrivateKey, signingPrivateKey
      ensures Valid()
      ensures forall i :: 0 <= i < KeySize ==> noisePrivateKey[i] == 0 && signingPrivateKey[i] == 0
      ensures nickname[..] == old(nickname[..])
    {
      forall i | 0 <= i < KeySize {
        noisePrivateKey[i] := 0;
      }
      forall i | 0 <= i < KeySize {
        signingPrivateKey[i] := 0;
      }
    }

    /**
     * bitchat_identity_get_nickname, corrected: nothing for an empty nickname,
     * else at most size - 1 characters of it, never reading past the array.
     */
    function GetNickname(size: nat): (r: Option<seq<Byte>>)
      reads this, nickname
      requires Valid() && size >= 1
      ensures r == NicknameInto(Nickname(), size)
    {
      if nickname[0] == Nul then None else Some(StrNCopy(CStr(nickname[..]), size - 1))
    }

    /**
     * bitchat_identity_get_nickname as written: strncpy reads up to size - 1
     * bytes of the nickname or to its terminator. With no terminator in the
     * array and a buffer of more than 33 bytes it reads past the record, whose
     * last field the nickname is; otherwise it copies what GetNickname gives.
     */
    function GetNicknameAsWritten(size: nat): (r: NicknameRead)
      reads this, nickname
      requires Valid() && size >= 1
      ensures r == ReadPastRecord <==> |Nickname()| == NicknameSize && size - 1 > NicknameSize
      ensures r.Read? ==> r.value == GetNickname(size)
    {
      if nickname[0] == Nul then Read(None)
      else if NulFree(nickname[..]) && size - 1 > NicknameSize then ReadPastRecord
      else Read(Some(StrNCopy(CStr(nickname[..]), size - 1)))
    }

    /**
     * A loaded record whose 32 nickname bytes are all 'a': load accepts it,
     * get_nickname as written reads past the record for a 34-byte buffer, and
     * the corrected read gives the 32 characters.
     */
    lemma UnterminatedNicknameOverread()
      requires Valid() && version == IdentityVersion && nickname[..] == seq(NicknameSize, _ => 'a' as Byte)
      ensures Load(Some(RecordBytes(AsRecord()))) == Some(AsRecord())
      ensures GetNicknameAsWritten(NicknameSize + 2) == ReadPastRecord
      ensures GetNickname(NicknameSize + 2) == Some(nickname[..])
    {
      LoadRoundTrip(AsRecord(), []);
      assert RecordBytes(AsRecord()) + [] == RecordBytes(AsRecord());
      assert NulFree(nickname[..]);
    }

    /**
     * bitchat_identity_set_nickname: strncpy of at most 31 characters, which
     * pads the rest of those 31 bytes with NUL, then the last byte set to NUL.
     */
    method SetNickname(name: seq<Byte>)
      requires Valid() && NulFree(name)
      modifies nickname
      ensures Valid()
      ensures nickname[..] == Padded(StrNCopy(name, NicknameCapacity), NicknameSize)
      ensures Nickname() == StrNCopy(name, NicknameCapacity) && Terminated()
      ensures noisePrivateKey[..] == old(noisePrivateKey[..]) && signingPrivateKey[..] == old(signingPrivateKey[..])
    {
      var i := 0;
      while i < NicknameCapacity
        invariant 0 <= i <= NicknameCapacity
        invariant forall j :: 0 <= j < i ==> nickname[j] == if j < |name| then name[j] else Nul
      {
        nickname[i] := if i < |name| then name[i] else Nul;
        i := i + 1;
      }
      nickname[NicknameCapacity] := Nul;
      var stored := StrNCopy(name, NicknameCapacity);
      assert nickname[..] == Padded(stored, NicknameSize);
      CStrPadded(stored, NicknameSize);
    }

    /** An identity, saved and loaded again, is the same record. */
    lemma SavedIdentityLoads()
      requires Valid() && version == IdentityVersion
      ensures Load(Some(RecordBytes(AsRecord()))) == Some(AsRecord())
    {
      LoadRoundTrip(AsRecord(), []);
      assert RecordBytes(AsRecord()) + [] == RecordBytes(AsRecord());
    }
  }
}
