/** The Credential model: the stored record and its schema rules (defaults,
    the category enumeration, `trim`, `required`, the pre-save timestamp
    hook), the derivation of the 32-character AES-256 key from the configured
    secret, and the password envelope `hex(iv) ":" hex(ciphertext)`.

    AES-256-CBC (FIPS 197, with the CBC mode of section 6.2 of NIST
    SP 800-38A and PKCS#7 padding) is not computed: it is a pair of
    functions handed in as a `Cipher`, and the laws it obeys are the
    predicate `CbcLaws`, a premise of the lemmas that rely on them. */
module CredentialModel {
  import opened Common
  import opened JsStrings

  newtype byte = x: int | 0 <= x < 256

  /** Length in bytes of the initialisation vector, `crypto.randomBytes(16)`. */
  const IV_LENGTH: nat := 16

  /** What `crypto.randomBytes(16)` returns: the model receives it as an input. */
  type Iv = s: seq<byte> | |s| == 16 witness seq(16, _ => 0)

  // ---------------------------------------------------------------------
  // Category enumeration
  // ---------------------------------------------------------------------

  datatype Category = General | Social | Banking | Email | Work | Other

  /** The schema default of `category`. */
  const DEFAULT_CATEGORY: Category := General

  /** The string Mongoose stores for a category. */
  function CategoryName(c: Category): (name: string)
  {
    match c
    case General => "general"
    case Social => "social"
    case Banking => "banking"
    case Email => "email"
    case Work => "work"
    case Other => "other"
  }

  /** The `enum` validator: a string is accepted exactly when it is the name
      of one of the six categories. */
  function ParseCategory(s: string): (r: Option<Category>)
    ensures r.Some? ==> CategoryName(r.value) == s
    ensures r.None? ==> forall c: Category :: CategoryName(c) != s
  {
    if s == "general" then Some(General)
    else if s == "social" then Some(Social)
    else if s == "banking" then Some(Banking)
    else if s == "email" then Some(Email)
    else if s == "work" then Some(Work)
    else if s == "other" then Some(Other)
    else None
  }

  /** Every category's stored name is accepted and means that category. */
  lemma CategoryNameRoundTrip(c: Category)
    ensures ParseCategory(CategoryName(c)) == Some(c)
  {
    match c
    case General =>
    case Social =>
    case Banking =>
    case Email =>
    case Work =>
    case Other =>
  }

  // ---------------------------------------------------------------------
  // Records and the save pipeline
  // ---------------------------------------------------------------------

  /** A persisted credential; its id is the key of the table that holds it. */
  datatype Credential = Credential(
    owner: UserId,
    site: string,
    username: string,
    encryptedPassword: string,
    category: Category,
    notes: Option<string>,
    createdAt: int,
    updatedAt: int)

  /** A credential document in memory, before validation: the category is
      still the string it was given. */
  datatype Document = Document(
    owner: UserId,
    site: string,
    username: string,
    encryptedPassword: string,
    category: string,
    notes: Option<string>,
    createdAt: int,
    updatedAt: int)

  /** `new Credential({...})` at time `now`: the `trim` setters run on
      site, username and notes, an omitted category takes the schema
      default, and both timestamps take their `Date.now` default. */
  function NewDocument(owner: UserId, site: string, username: string, encryptedPassword: string,
                       category: Option<string>, notes: Option<string>, now: int): (d: Document)
    ensures d.owner == owner && d.encryptedPassword == encryptedPassword
    ensures d.site == Trim(site) && d.username == Trim(username)
    ensures d.category == if category.Some? then category.value else CategoryName(DEFAULT_CATEGORY)
    ensures d.notes.Some? <==> notes.Some?
    ensures notes.Some? ==> d.notes.value == Trim(notes.value)
    ensures d.createdAt == now && d.updatedAt == now
  {
    Document(owner, Trim(site), Trim(username), encryptedPassword,
             if category.Some? then category.value else CategoryName(DEFAULT_CATEGORY),
             if notes.Some? then Some(Trim(notes.value)) else None,
             now, now)
  }

  /** A stored credential loaded back as a document. */
  function DocumentOf(c: Credential): (d: Document)
  {
    Document(c.owner, c.site, c.username, c.encryptedPassword, CategoryName(c.category),
             c.notes, c.createdAt, c.updatedAt)
  }

  /** What every stored credential satisfies: its `required` string paths
      are non-empty. */
  predicate Stored(c: Credential)
  {
    c.site != [] && c.username != [] && c.encryptedPassword != []
  }

  const VALIDATION_FAILED := "Credential validation failed"

  /** `document.save()` at time `now`: schema validation (`required` paths
      must be non-empty strings, `category` must be in the enumeration),
      then the pre-save hook that stamps `updatedAt`. A document that fails
      validation is not written and `save` throws. */
  function Save(d: Document, now: int): (r: Result<Credential>)
    ensures r.Success? <==>
      d.site != [] && d.username != [] && d.encryptedPassword != [] && ParseCategory(d.category).Some?
    ensures r.Success? ==> Stored(r.value) && DocumentOf(r.value) == d.(updatedAt := now)
    ensures r.Success? ==>
      && r.value.owner == d.owner && r.value.site == d.site && r.value.username == d.username
      && r.value.encryptedPassword == d.encryptedPassword && CategoryName(r.value.category) == d.category
      && r.value.notes == d.notes && r.value.createdAt == d.createdAt && r.value.updatedAt == now
    ensures r.Failure? ==> r.error == VALIDATION_FAILED
  {
    match ParseCategory(d.category)
    case None => Failure(VALIDATION_FAILED)
    case Some(category) =>
      if d.site == [] || d.username == [] || d.encryptedPassword == [] then Failure(VALIDATION_FAILED)
      else Success(Credential(d.owner, d.site, d.username, d.encryptedPassword, category,
                              d.notes, d.createdAt, now))
  }

  /** Saving a stored credential that nobody changed only moves `updatedAt`:
      `createdAt` is never touched after creation. */
  lemma SaveUnchangedOnlyStamps(c: Credential, now: int)
    requires Stored(c)
    ensures Save(DocumentOf(c), now) == Success(c.(updatedAt := now))
  {
    CategoryNameRoundTrip(c.category);
  }

  // ---------------------------------------------------------------------
  // Key derivation
  // ---------------------------------------------------------------------

  const FALLBACK_ENCRYPTION_KEY := "fallback-32-character-encryption-key"

  /** Characters in the key string, and bytes AES-256 needs. */
  const KEY_LENGTH: nat := 32

  /** `process.env.ENCRYPTION_KEY || 'fallback-…'`: an unset or empty
      variable selects the fallback. */
  function EncryptionSecret(env: Option<string>): (secret: string)
    ensures secret != []
    ensures Truthy(env) ==> secret == env.value
    ensures !Truthy(env) ==> secret == FALLBACK_ENCRYPTION_KEY
  {
    if Truthy(env) then env.value else FALLBACK_ENCRYPTION_KEY
  }

  /** `getKey`: `secret.padEnd(32).slice(0, 32)`, the key string whose UTF-8
      bytes are handed to the cipher. */
  function GetKey(secret: string): (key: string)
    ensures |key| == KEY_LENGTH
    ensures |secret| <= KEY_LENGTH ==> key[..|secret|] == secret
    ensures |secret| >= KEY_LENGTH ==> key == secret[..KEY_LENGTH]
    ensures forall i :: |secret| <= i < KEY_LENGTH ==> key[i] == ' '
  {
    Slice(PadEnd(secret, KEY_LENGTH), KEY_LENGTH)
  }

  /** Without `ENCRYPTION_KEY` the 36-character fallback secret is used, and
      it loses its last four characters. */
  lemma FallbackKeyIsTruncated(env: Option<string>)
    requires !Truthy(env)
    ensures |EncryptionSecret(env)| == 36
    ensures GetKey(EncryptionSecret(env)) == "fallback-32-character-encryption"
  {
  }

  /** `createCipheriv`/`createDecipheriv` accept an AES-256 key only when it
      is exactly 32 bytes long. */
  predicate KeyUsable(key: string): (ok: bool)
    ensures ok ==> |key| <= KEY_LENGTH
    ensures |key| == KEY_LENGTH ==> (ok <==> IsAscii(key))
  {
    Utf8LengthVersusLength(key);
    Utf8Length(key) == KEY_LENGTH
  }

  /** The derived key is usable exactly when it is ASCII; in particular every
      ASCII secret yields a usable key, and a secret with a non-ASCII
      character among its first 32 yields one that is too long. */
  lemma KeyUsableIffAscii(secret: string)
    ensures KeyUsable(GetKey(secret)) <==> IsAscii(GetKey(secret))
    ensures IsAscii(secret) ==> KeyUsable(GetKey(secret))
    ensures (exists i :: 0 <= i < |secret| && i < KEY_LENGTH && secret[i] as int >= 0x80) ==>
              !KeyUsable(GetKey(secret))
  {
    var key := GetKey(secret);
    Utf8LengthVersusLength(key);
    if IsAscii(secret) {
      forall i | 0 <= i < |key| ensures key[i] as int < 0x80 {
        if i < |secret| {
          if |secret| <= KEY_LENGTH { assert key[i] == key[..|secret|][i]; }
        }
      }
    }
    if exists i :: 0 <= i < |secret| && i < KEY_LENGTH && secret[i] as int >= 0x80 {
      var i :| 0 <= i < |secret| && i < KEY_LENGTH && secret[i] as int >= 0x80;
      if |secret| <= KEY_LENGTH { assert key[i] == key[..|secret|][i]; }
      assert !IsAscii(key);
    }
  }

  // ---------------------------------------------------------------------
  // Hexadecimal text, as Buffer's 'hex' encoding writes and reads it
  // ---------------------------------------------------------------------

  const HEX_DIGITS := "0123456789abcdef"

  predicate IsLowerHex(c: char)
  {
    '0' <= c <= '9' || 'a' <= c <= 'f'
  }

  /** Value of a hexadecimal digit, either case. */
  function HexValue(c: char): (v: Option<nat>)
    ensures v.Some? ==> v.value < 16
    ensures forall n :: 0 <= n < 16 ==> (c == HEX_DIGITS[n] ==> v == Some(n))
  {
    if '0' <= c <= '9' then Some(c as int - '0' as int)
    else if 'a' <= c <= 'f' then Some(c as int - 'a' as int + 10)
    else if 'A' <= c <= 'F' then Some(c as int - 'A' as int + 10)
    else None
  }

  /** `buf.toString('hex')`: two lower-case digits per byte, high nibble first. */
  function HexEncode(b: seq<byte>): (h: string)
    ensures |h| == 2 * |b|
    ensures forall i :: 0 <= i < |h| ==> IsLowerHex(h[i])
  {
    if b == [] then ""
    else [HEX_DIGITS[b[0] / 16], HEX_DIGITS[b[0] % 16]] + HexEncode(b[1..])
  }

  /** `Buffer.from(h, 'hex')`: decodes digit pairs up to the first pair that
      is not two hexadecimal digits; a trailing odd digit is dropped. */
  function HexDecode(h: string): (b: seq<byte>)
    ensures 2 * |b| <= |h|
  {
    if |h| < 2 then []
    else match (HexValue(h[0]), HexValue(h[1]))
      case (Some(hi), Some(lo)) => [(hi * 16 + lo) as byte] + HexDecode(h[2..])
      case _ => []
  }

  /** Two leading digits decode to one byte in front of the rest. */
  lemma HexDecodePair(h: string, hi: nat, lo: nat)
    requires |h| >= 2 && HexValue(h[0]) == Some(hi) && HexValue(h[1]) == Some(lo)
    ensures HexDecode(h) == [(hi * 16 + lo) as byte] + HexDecode(h[2..])
  {
  }

  /** Decoding the hexadecimal text of some bytes gives back those bytes. */
  lemma {:induction false} HexRoundTrip(b: seq<byte>)
    ensures HexDecode(HexEncode(b)) == b
  {
    if b != [] {
      var h := HexEncode(b);
      var hi, lo := b[0] as int / 16, b[0] as int % 16;
      assert h[2..] == HexEncode(b[1..]);
      assert HexValue(h[0]) == Some(hi);
      assert HexValue(h[1]) == Some(lo);
      assert (hi * 16 + lo) as byte == b[0];
      HexDecodePair(h, hi, lo);
      HexRoundTrip(b[1..]);
      assert b == [b[0]] + b[1..];
    }
  }

  // ---------------------------------------------------------------------
  // The abstract cipher
  // ---------------------------------------------------------------------

  /** AES-256-CBC with PKCS#7 padding as two functions of the key string,
      the IV and the data: `encrypt` maps a password to ciphertext bytes,
      `decrypt` maps ciphertext bytes to the password or to a failure (bad
      padding, a wrong key, a corrupted ciphertext). UTF-8 encoding of the
      key and of the password happens inside them. */
  datatype Cipher = Cipher(
    encrypt: (string, Iv, string) -> seq<byte>,
    decrypt: (string, Iv, seq<byte>) -> Option<string>)

  /** AES block size in bytes. */
  const BLOCK_SIZE: nat := 16

  /** What the model relies on about the cipher under a usable key: the
      padded ciphertext is a non-empty whole number of blocks, and
      decryption inverts encryption. */
  ghost predicate CbcLaws(c: Cipher)
  {
    && (forall key, iv, p :: KeyUsable(key) ==>
          |c.encrypt(key, iv, p)| > 0 && |c.encrypt(key, iv, p)| % BLOCK_SIZE == 0)
    && (forall key, iv, p :: KeyUsable(key) ==> c.decrypt(key, iv, c.encrypt(key, iv, p)) == Some(p))
  }

  // ---------------------------------------------------------------------
  // The envelope
  // ---------------------------------------------------------------------

  /** The two segments `decryptPassword` takes out of an envelope. */
  datatype Envelope = Envelope(ivHex: string, cipherHex: string)

  /** The shape of every envelope `encryptPassword` produces:
      `^[0-9a-f]{32}:[0-9a-f]+$`. */
  predicate EnvelopeShape(s: string)
  {
    && |s| > 2 * IV_LENGTH + 1
    && s[2 * IV_LENGTH] == ':'
    && forall i :: 0 <= i < |s| && i != 2 * IV_LENGTH ==> IsLowerHex(s[i])
  }

  /** `const [ivHex, encrypted] = s.split(':')` followed by the check
      `!ivHex || !encrypted`: the first two pieces, both non-empty. Stated
      without `Split`: there is a colon, something before it, and something
      other than a colon right after it. */
  function ParseEnvelope(s: string): (r: Option<Envelope>)
    ensures r.Some? <==>
      ':' in s && 0 < IndexOf(s, ':') < |s| - 1 && s[IndexOf(s, ':') + 1] != ':'
    ensures r.Some? ==>
      && r.value.ivHex == s[..IndexOf(s, ':')]
      && r.value.cipherHex != [] && ':' !in r.value.cipherHex
  {
    var parts := Split(s, ':');
    SplitFirstPiece(s, ':');
    SplitSecondPiece(s, ':');
    if |parts| < 2 || parts[0] == [] || parts[1] == [] then None
    else Some(Envelope(parts[0], parts[1]))
  }

  /** The envelope is read from the first two pieces of the split alone. */
  lemma ParseFromPieces(s: string, ivHex: string, cipherHex: string)
    requires |Split(s, ':')| >= 2 && Split(s, ':')[0] == ivHex && Split(s, ':')[1] == cipherHex
    ensures ParseEnvelope(s) == if ivHex == [] || cipherHex == [] then None else Some(Envelope(ivHex, cipherHex))
  {
  }

  /** Two colon-free segments joined by a colon split into exactly those two. */
  lemma TwoPieces(a: string, b: string)
    requires ':' !in a && ':' !in b
    ensures Split(a + ":" + b, ':') == [a, b]
  {
    assert a + ":" + b == a + [':'] + b;
    SplitCons(a, ':', b);
    SplitFirstPiece(b, ':');
  }

  /** Two colon-free segments followed by a colon and anything split into
      those two first. */
  lemma TwoPiecesThenTail(a: string, b: string, tail: string)
    requires ':' !in a && ':' !in b
    ensures var parts := Split(a + ":" + b + ":" + tail, ':');
      |parts| >= 2 && parts[0] == a && parts[1] == b
  {
    assert a + ":" + b + ":" + tail == a + [':'] + (b + [':'] + tail);
    SplitCons(a, ':', b + [':'] + tail);
    SplitCons(b, ':', tail);
  }

  /** Segments after the second are ignored. */
  lemma ParseIgnoresTail(ivHex: string, cipherHex: string, tail: string)
    requires ':' !in ivHex && ':' !in cipherHex
    ensures ParseEnvelope(ivHex + ":" + cipherHex + ":" + tail) == ParseEnvelope(ivHex + ":" + cipherHex)
  {
    TwoPiecesThenTail(ivHex, cipherHex, tail);
    ParseFromPieces(ivHex + ":" + cipherHex + ":" + tail, ivHex, cipherHex);
    TwoPieces(ivHex, cipherHex);
    ParseFromPieces(ivHex + ":" + cipherHex, ivHex, cipherHex);
  }

  /** Hexadecimal text never contains the separator. */
  lemma NoColonInHex(b: seq<byte>)
    ensures ':' !in HexEncode(b)
  {
  }

  /** Parsing the envelope text of two non-empty byte strings recovers their
      hexadecimal segments. */
  lemma ParseFormat(iv: seq<byte>, ct: seq<byte>)
    requires iv != [] && ct != []
    ensures ParseEnvelope(HexEncode(iv) + ":" + HexEncode(ct)) == Some(Envelope(HexEncode(iv), HexEncode(ct)))
  {
    var a, b := HexEncode(iv), HexEncode(ct);
    NoColonInHex(iv);
    NoColonInHex(ct);
    TwoPieces(a, b);
    ParseFromPieces(a + ":" + b, a, b);
  }

  const ENCRYPT_FAILED := "Failed to encrypt password"

  /** `encryptPassword` with the IV drawn from the random source: a full
      envelope, or the error `Failed to encrypt password` when the cipher
      cannot be constructed because the key is not 32 bytes. */
  function EncryptPassword(c: Cipher, secret: string, iv: Iv, password: string): (r: Result<string>)
    ensures r.Failure? <==> !KeyUsable(GetKey(secret))
    ensures r.Failure? ==> r.error == ENCRYPT_FAILED
    ensures r.Success? ==>
      |r.value| > 2 * IV_LENGTH && r.value[..2 * IV_LENGTH] == HexEncode(iv) && r.value[2 * IV_LENGTH] == ':'
    ensures r.Success? && CbcLaws(c) ==> EnvelopeShape(r.value)
  {
    var key := GetKey(secret);
    if !KeyUsable(key) then Failure(ENCRYPT_FAILED)
    else
      var ct := c.encrypt(key, iv, password);
      assert (HexEncode(iv) + ":" + HexEncode(ct))[..2 * IV_LENGTH] == HexEncode(iv);
      Success(HexEncode(iv) + ":" + HexEncode(ct))
  }

  /** `decryptPassword`: the password, or `None` (the source's `null`) for
      a malformed envelope, an unusable key, an IV that is not 16 bytes, a
      ciphertext hex of odd length (which `decipher.update` refuses with an
      error), or a ciphertext the cipher rejects. It never throws. */
  function DecryptPassword(c: Cipher, secret: string, envelope: string): (r: Option<string>)
    ensures ParseEnvelope(envelope).None? ==> r.None?
    ensures !KeyUsable(GetKey(secret)) ==> r.None?
    ensures r.Some? ==> |HexDecode(ParseEnvelope(envelope).value.ivHex)| == IV_LENGTH
    ensures r.Some? ==> |ParseEnvelope(envelope).value.cipherHex| % 2 == 0
  {
    match ParseEnvelope(envelope)
    case None => None
    case Some(e) =>
      var iv := HexDecode(e.ivHex);
      var key := GetKey(secret);
      if !KeyUsable(key) || |iv| != IV_LENGTH || |e.cipherHex| % 2 != 0 then None
      else c.decrypt(key, iv, HexDecode(e.cipherHex))
  }

  /** The round trip: with a usable key, decrypting what `encryptPassword`
      produced gives back the password. */
  lemma EnvelopeRoundTrip(c: Cipher, secret: string, iv: Iv, password: string)
    requires KeyUsable(GetKey(secret))
    ensures EncryptPassword(c, secret, iv, password).Success?
    ensures CbcLaws(c) ==>
      DecryptPassword(c, secret, EncryptPassword(c, secret, iv, password).value) == Some(password)
  {
    if CbcLaws(c) {
      var key := GetKey(secret);
      var ct := c.encrypt(key, iv, password);
      var envelope := HexEncode(iv) + ":" + HexEncode(ct);
      assert EncryptPassword(c, secret, iv, password) == Success(envelope);
      assert |ct| > 0 && c.decrypt(key, iv, ct) == Some(password);
      ParseFormat(iv, ct);
      HexRoundTrip(iv);
      HexRoundTrip(ct);
      HexLengthEven(ct);
    }
  }

  /** Hexadecimal text always has an even number of digits. */
  lemma HexLengthEven(b: seq<byte>)
    ensures |HexEncode(b)| % 2 == 0
  {
    var n := |b|;
    assert |HexEncode(b)| == n + n;
  }

  /** Two encryptions under different IVs never produce the same envelope,
      whatever the passwords. */
  lemma DistinctIvsGiveDistinctEnvelopes(c: Cipher, secret: string, iv1: Iv, iv2: Iv, p1: string, p2: string)
    requires iv1 != iv2
    requires KeyUsable(GetKey(secret))
    ensures EncryptPassword(c, secret, iv1, p1) != EncryptPassword(c, secret, iv2, p2)
  {
    HexRoundTrip(iv1);
    HexRoundTrip(iv2);
  }
}
