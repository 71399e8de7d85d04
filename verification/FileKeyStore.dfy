/**
 * The file-based key store of bccsp/sw/fileks.go: every key is a file whose name is the
 * hexadecimal subject key identifier (SKI) and a suffix for the kind of key.  Directory listings
 * are sorted by name.  The key identifier hash and the PEM encodings are parameters.
 */
module FileKeyStore {
  import opened Wrappers
  import opened BigEndian
  import opened Lex

  /** What identifies a key: its public part, or the bytes of a symmetric key. */
  datatype Material = EcPoint(x: nat, y: nat) | RsaModulus(n: nat, e: nat) | Symmetric(bytes: Bytes)

  datatype Key = Private(secret: nat, material: Material) | Public(material: Material)

  /** The kinds of key StoreKey recognises. */
  predicate Storable(k: Key) {
    k.Public? ==> !k.material.Symmetric?
  }

  /** Hashing and encoding; `pwd` is the store's password, empty for none. */
  datatype Codec = Codec(
    ski: Material -> Bytes,
    encode: (Key, Bytes) -> Option<Bytes>,
    decodePrivate: (Bytes, Bytes) -> Option<Key>,
    decodePublic: (Bytes, Bytes) -> Option<Key>,
    decodeAes: (Bytes, Bytes) -> Option<Key>)

  predicate IsAes(k: Key) { k.Private? && k.material.Symmetric? }

  predicate IsPrivate(k: Key) { k.Private? && !k.material.Symmetric? }

  /** Decoding inverts encoding, and the private-key decoder refuses the other kinds. */
  ghost predicate CodecLaw(c: Codec) {
    && (forall m :: |c.ski(m)| == 32)
    && (forall k, pwd :: c.encode(k, pwd).Some? ==> Decodes(c, k, c.encode(k, pwd).value, pwd))
    && (forall raw, pwd :: c.decodePrivate(raw, pwd).Some? ==> IsPrivate(c.decodePrivate(raw, pwd).value))
  }

  predicate Decodes(c: Codec, k: Key, raw: Bytes, pwd: Bytes) {
    && c.decodePrivate(raw, pwd) == (if IsPrivate(k) then Some(k) else None)
    && (IsAes(k) ==> c.decodeAes(raw, pwd) == Some(k))
    && (k.Public? ==> c.decodePublic(raw, pwd) == Some(k))
  }

  /** No two of the keys share an SKI without sharing what it identifies. */
  ghost predicate Apart(c: Codec, keys: seq<Key>) {
    forall a, b :: a in keys && b in keys && Ski(c, a) == Ski(c, b) ==> a.material == b.material
  }

  function Ski(c: Codec, k: Key): Bytes { c.ski(k.material) }

  // -------------------------------------------------------------- file names

  const DIGITS := "0123456789abcdef"

  /** hex.EncodeToString */
  function Hex(bs: Bytes): (s: string)
    ensures |s| == 2 * |bs|
    ensures forall i :: 0 <= i < |s| ==> s[i] != '_'
  {
    if bs == [] then []
    else
      assert forall i :: 0 <= i < 16 ==> DIGITS[i] != '_';
      [DIGITS[bs[0] / 16], DIGITS[bs[0] % 16]] + Hex(bs[1..])
  }

  /** Two digits per byte, the high half first. */
  lemma {:induction false} HexAt(bs: Bytes, i: nat)
    requires i < |bs|
    ensures Hex(bs)[2 * i] == DIGITS[bs[i] / 16] && Hex(bs)[2 * i + 1] == DIGITS[bs[i] % 16]
  {
    if i > 0 {
      HexAt(bs[1..], i - 1);
      assert Hex(bs)[2..] == Hex(bs[1..]);
      assert Hex(bs)[2 * i] == Hex(bs)[2..][2 * (i - 1)] && Hex(bs)[2 * i + 1] == Hex(bs)[2..][2 * (i - 1) + 1];
    }
  }

  lemma DigitInjective(a: nat, b: nat)
    requires a < 16 && b < 16 && DIGITS[a] == DIGITS[b]
    ensures a == b
  {}

  lemma {:induction false} HexInjective(a: Bytes, b: Bytes)
    requires Hex(a) == Hex(b)
    ensures a == b
  {
    if a != [] && b != [] {
      assert Hex(a)[0] == Hex(b)[0] && Hex(a)[1] == Hex(b)[1];
      DigitInjective(a[0] / 16, b[0] / 16);
      DigitInjective(a[0] % 16, b[0] % 16);
      assert Hex(a)[2..] == Hex(a[1..]) && Hex(b)[2..] == Hex(b[1..]);
      HexInjective(a[1..], b[1..]);
      assert a == [a[0]] + a[1..] && b == [b[0]] + b[1..];
    }
  }

  datatype Suffix = Sk | Pk | KeySuffix

  function Text(s: Suffix): string {
    match s
    case Sk => "sk"
    case Pk => "pk"
    case KeySuffix => "key"
  }

  function SuffixOf(k: Key): Suffix {
    if k.Public? then Pk else if k.material.Symmetric? then KeySuffix else Sk
  }

  /** getPathForAlias, within the store's directory. */
  function FileName(alias: string, s: Suffix): string {
    alias + ("_" + Text(s))
  }

  predicate HasPrefix(s: string, p: string) { |p| <= |s| && s[..|p|] == p }

  predicate HasSuffix(s: string, p: string) { |p| <= |s| && s[|s| - |p|..] == p }

  /** The kind getSuffix reads off a file name. */
  function KindOf(name: string): Option<Suffix> {
    if HasSuffix(name, "sk") then Some(Sk)
    else if HasSuffix(name, "pk") then Some(Pk)
    else if HasSuffix(name, "key") then Some(KeySuffix)
    else None
  }

  lemma KindOfFileName(alias: string, s: Suffix)
    ensures KindOf(FileName(alias, s)) == Some(s)
  {
    var name, tail := FileName(alias, s), "_" + Text(s);
    assert name[|alias|..] == tail;
    match s {
      case Sk => assert name[|name| - 2..] == "sk";
      case Pk => assert name[|name| - 2..] == "pk";
      case KeySuffix =>
        assert name[|name| - 3..] == "key";
        assert name[|name| - 2..] == "ey";
        assert "ey"[0] != "sk"[0] && "ey"[0] != "pk"[0];
    }
  }

  /** File names take apart uniquely: the alias has no underscore. */
  lemma FileNameInjective(a: Bytes, s: Suffix, b: Bytes, t: Suffix)
    requires FileName(Hex(a), s) == FileName(Hex(b), t)
    ensures a == b && s == t
  {
    var x, y, name := Hex(a), Hex(b), FileName(Hex(a), s);
    KindOfFileName(x, s);
    KindOfFileName(y, t);
    assert name[|x|] == '_' && name[|y|] == '_';
    assert forall i :: 0 <= i < |x| ==> name[i] == x[i];
    assert forall i :: 0 <= i < |y| ==> name[i] == y[i];
    assert |x| == |y|;
    assert x == name[..|x|] && y == name[..|y|];
    HexInjective(a, b);
  }

  /** Listings are sorted, so the symmetric file precedes the public one, and that the private one. */
  lemma SuffixOrder(alias: string)
    ensures Below(FileName(alias, KeySuffix), FileName(alias, Pk))
    ensures Below(FileName(alias, Pk), FileName(alias, Sk))
    ensures Below(FileName(alias, KeySuffix), FileName(alias, Sk))
  {
    assert "_" + Text(KeySuffix) == "_key" && "_" + Text(Pk) == "_pk" && "_" + Text(Sk) == "_sk";
    BelowPrefix(alias, "_key", "_pk");
    BelowPrefix(alias, "_pk", "_sk");
    assert Below("_key", "_pk") by { assert "_key"[1..] == "key" && "_pk"[1..] == "pk"; }
    assert Below("_pk", "_sk") by { assert "_pk"[1..] == "pk" && "_sk"[1..] == "sk"; }
    BelowTransitive(FileName(alias, KeySuffix), FileName(alias, Pk), FileName(alias, Sk));
  }

  // --------------------------------------------------------------- directory

  datatype File = File(name: string, content: Bytes)

  ghost predicate Listed(dir: seq<File>) {
    forall i, j :: 0 <= i < j < |dir| ==> Below(dir[i].name, dir[j].name)
  }

  /** ioutil.WriteFile: replaces the file of that name or adds it in its place in the listing. */
  function WriteFile(dir: seq<File>, name: string, content: Bytes): seq<File> {
    if dir == [] || Below(name, dir[0].name) then [File(name, content)] + dir
    else if dir[0].name == name then [File(name, content)] + dir[1..]
    else [dir[0]] + WriteFile(dir[1..], name, content)
  }

  /** ioutil.ReadFile */
  function ReadFile(dir: seq<File>, name: string): Option<Bytes> {
    if dir == [] then None
    else if dir[0].name == name then Some(dir[0].content)
    else ReadFile(dir[1..], name)
  }

  lemma {:induction false} WriteFileMembers(dir: seq<File>, name: string, content: Bytes, f: File)
    requires Listed(dir)
    ensures f in WriteFile(dir, name, content) <==> f == File(name, content) || (f in dir && f.name != name)
  {
    if dir == [] {
    } else if Below(name, dir[0].name) {
      forall i | 0 <= i < |dir| ensures dir[i].name != name {
        if i > 0 { BelowTransitive(name, dir[0].name, dir[i].name); }
        BelowIrreflexive(name);
      }
    } else if dir[0].name == name {
      forall i | 0 < i < |dir| ensures dir[i].name != name { BelowIrreflexive(name); }
    } else {
      WriteFileMembers(dir[1..], name, content, f);
    }
  }

  lemma {:induction false} WriteFileListed(dir: seq<File>, name: string, content: Bytes)
    requires Listed(dir)
    ensures Listed(WriteFile(dir, name, content))
  {
    if dir == [] {
    } else if Below(name, dir[0].name) {
      forall i | 0 < i < |dir| ensures Below(name, dir[i].name) { BelowTransitive(name, dir[0].name, dir[i].name); }
    } else if dir[0].name == name {
    } else {
      WriteFileListed(dir[1..], name, content);
      var rest := WriteFile(dir[1..], name, content);
      BelowConnected(name, dir[0].name);
      forall i | 0 <= i < |rest| ensures Below(dir[0].name, rest[i].name) {
        WriteFileMembers(dir[1..], name, content, rest[i]);
        if rest[i] != File(name, content) { assert rest[i] in dir[1..]; }
      }
    }
  }

  lemma {:induction false} ReadFileIff(dir: seq<File>, name: string, content: Bytes)
    requires Listed(dir)
    ensures ReadFile(dir, name) == Some(content) <==> File(name, content) in dir
  {
    if dir != [] {
      ReadFileIff(dir[1..], name, content);
      assert File(name, content) in dir <==> File(name, content) == dir[0] || File(name, content) in dir[1..];
      if dir[0].name == name {
        forall i | 0 < i < |dir| ensures dir[i].name != name { BelowIrreflexive(name); }
      }
    }
  }

  // ------------------------------------------------------ lookups, as functions

  datatype StoreError = ReadOnlyStore | NilKey | UnknownKeyType | NotEncodable | EmptySki | NotFound | NotDecodable

  /** getSuffix: the kind of the first listed file whose name starts with the alias. */
  function FirstKind(dir: seq<File>, alias: string): Option<Suffix> {
    if dir == [] then None
    else if HasPrefix(dir[0].name, alias) then KindOf(dir[0].name)
    else FirstKind(dir[1..], alias)
  }

  function DecodeAs(c: Codec, kind: Suffix, raw: Bytes, pwd: Bytes): Option<Key> {
    match kind
    case Sk => c.decodePrivate(raw, pwd)
    case Pk => c.decodePublic(raw, pwd)
    case KeySuffix => c.decodeAes(raw, pwd)
  }

  /** searchKeystoreForSKI: the first file that decodes to a private key with this SKI. */
  function Search(c: Codec, pwd: Bytes, dir: seq<File>, ski: Bytes): Option<Key> {
    if dir == [] then None
    else
      match c.decodePrivate(dir[0].content, pwd)
      case Some(k) => if Ski(c, k) == ski then Some(k) else Search(c, pwd, dir[1..], ski)
      case None => Search(c, pwd, dir[1..], ski)
  }

  function Lookup(c: Codec, pwd: Bytes, dir: seq<File>, ski: Bytes): Result<Key, StoreError> {
    if ski == [] then Failure(EmptySki)
    else
      match FirstKind(dir, Hex(ski))
      case Some(kind) =>
        (match ReadFile(dir, FileName(Hex(ski), kind))
         case None => Failure(NotFound)
         case Some(raw) =>
           match DecodeAs(c, kind, raw, pwd)
           case None => Failure(NotDecodable)
           case Some(k) => Success(k))
      case None =>
        match Search(c, pwd, dir, ski)
        case None => Failure(NotFound)
        case Some(k) => Success(k)
  }

  function Stored(c: Codec, pwd: Bytes, dir: seq<File>, k: Key): Result<seq<File>, StoreError> {
    if !Storable(k) then Failure(UnknownKeyType)
    else
      match c.encode(k, pwd)
      case None => Failure(NotEncodable)
      case Some(raw) => Success(WriteFile(dir, FileName(Hex(Ski(c, k)), SuffixOf(k)), raw))
  }

  // --------------------------------------------------------------- the store

  class KeyStore {
    const codec: Codec
    const pwd: Bytes
    const readOnly: bool
    var dir: seq<File>

    constructor (codec: Codec, pwd: Bytes, readOnly: bool)
      ensures this.codec == codec && this.pwd == pwd && this.readOnly == readOnly && dir == []
    {
      this.codec, this.pwd, this.readOnly := codec, pwd, readOnly;
      dir := [];
    }

    /** StoreKey; a nil key is None. */
    method StoreKey(key: Option<Key>) returns (error: Option<StoreError>)
      modifies this
      ensures readOnly ==> error == Some(ReadOnlyStore) && dir == old(dir)
      ensures !readOnly && key.None? ==> error == Some(NilKey) && dir == old(dir)
      ensures !readOnly && key.Some? ==>
                var r := Stored(codec, pwd, old(dir), key.value);
                if r.Success? then error.None? && dir == r.value else error == Some(r.error) && dir == old(dir)
    {
      if readOnly { return Some(ReadOnlyStore); }
      if key.None? { return Some(NilKey); }
      var k := key.value;
      if !Storable(k) { return Some(UnknownKeyType); }
      var raw := codec.encode(k, pwd);
      if raw.None? { return Some(NotEncodable); }
      dir := WriteFile(dir, FileName(Hex(Ski(codec, k)), SuffixOf(k)), raw.value);
      error := None;
    }

    method GetSuffix(alias: string) returns (kind: Option<Suffix>)
      ensures kind == FirstKind(dir, alias)
    {
      assert dir[0..] == dir;
      for i := 0 to |dir|
        invariant FirstKind(dir, alias) == FirstKind(dir[i..], alias)
      {
        assert dir[i..][1..] == dir[i + 1..];
        if HasPrefix(dir[i].name, alias) { return KindOf(dir[i].name); }
      }
      kind := None;
    }

    method SearchKeystoreForSKI(ski: Bytes) returns (r: Option<Key>)
      ensures r == Search(codec, pwd, dir, ski)
    {
      assert dir[0..] == dir;
      for i := 0 to |dir|
        invariant Search(codec, pwd, dir, ski) == Search(codec, pwd, dir[i..], ski)
      {
        assert dir[i..][1..] == dir[i + 1..];
        var key := codec.decodePrivate(dir[i].content, pwd);
        if key.Some? && Ski(codec, key.value) == ski { return key; }
      }
      r := None;
    }

    method GetKey(ski: Bytes) returns (r: Result<Key, StoreError>)
      ensures r == Lookup(codec, pwd, dir, ski)
    {
      if |ski| == 0 { return Failure(EmptySki); }
      var kind := GetSuffix(Hex(ski));
      if kind.None? {
        var found := SearchKeystoreForSKI(ski);
        if found.None? { return Failure(NotFound); }
        return Success(found.value);
      }
      var raw := ReadFile(dir, FileName(Hex(ski), kind.value));
      if raw.None? { return Failure(NotFound); }
      var key := DecodeAs(codec, kind.value, raw.value, pwd);
      if key.None? { return Failure(NotDecodable); }
      r := Success(key.value);
    }
  }

  // ------------------------------------------------------------ the invariant

  /** The file is what StoreKey writes for key k. */
  predicate FileOf(c: Codec, pwd: Bytes, f: File, k: Key) {
    Storable(k) && f.name == FileName(Hex(Ski(c, k)), SuffixOf(k)) && c.encode(k, pwd) == Some(f.content)
  }

  /** The file is what StoreKey writes for one of the keys. */
  ghost predicate FileOfSome(c: Codec, pwd: Bytes, f: File, keys: seq<Key>) {
    exists k :: k in keys && FileOf(c, pwd, f, k)
  }

  /** A sorted listing in which every file is one of the keys. */
  ghost predicate Inv(c: Codec, pwd: Bytes, dir: seq<File>, keys: seq<Key>) {
    Listed(dir) && forall f :: f in dir ==> FileOfSome(c, pwd, f, keys)
  }

  lemma StoredKeepsInv(c: Codec, pwd: Bytes, dir: seq<File>, keys: seq<Key>, k: Key)
    requires Inv(c, pwd, dir, keys) && Stored(c, pwd, dir, k).Success?
    ensures Inv(c, pwd, Stored(c, pwd, dir, k).value, keys + [k])
  {
    var name, raw := FileName(Hex(Ski(c, k)), SuffixOf(k)), c.encode(k, pwd).value;
    WriteFileListed(dir, name, raw);
    forall f | f in WriteFile(dir, name, raw) ensures FileOfSome(c, pwd, f, keys + [k]) {
      WriteFileMembers(dir, name, raw, f);
      if f == File(name, raw) { assert FileOf(c, pwd, f, k); } else { InvGrows(c, pwd, f, keys, k); }
    }
  }

  lemma InvGrows(c: Codec, pwd: Bytes, f: File, keys: seq<Key>, k: Key)
    requires FileOfSome(c, pwd, f, keys)
    ensures FileOfSome(c, pwd, f, keys + [k])
  {
    var own :| own in keys && FileOf(c, pwd, f, own);
    assert own in keys + [k];
  }

  /** The directory after storing the given keys one by one, failed attempts included. */
  function AfterStoring(c: Codec, pwd: Bytes, keys: seq<Key>): seq<File> {
    if keys == [] then []
    else
      var before := AfterStoring(c, pwd, keys[..|keys| - 1]);
      match Stored(c, pwd, before, keys[|keys| - 1])
      case Failure(_) => before
      case Success(dir) => dir
  }

  lemma {:induction false} ReachableInv(c: Codec, pwd: Bytes, keys: seq<Key>)
    ensures Inv(c, pwd, AfterStoring(c, pwd, keys), keys)
  {
    if keys != [] {
      var earlier, k := keys[..|keys| - 1], keys[|keys| - 1];
      assert earlier + [k] == keys;
      ReachableInv(c, pwd, earlier);
      var before := AfterStoring(c, pwd, earlier);
      if Stored(c, pwd, before, k).Success? {
        StoredKeepsInv(c, pwd, before, earlier, k);
      } else {
        forall f | f in before ensures FileOfSome(c, pwd, f, keys) { InvGrows(c, pwd, f, earlier, k); }
      }
    }
  }

  /** StoreKey accepts the key. */
  predicate Accepted(c: Codec, pwd: Bytes, k: Key) {
    Storable(k) && c.encode(k, pwd).Some?
  }

  /** No later store loses a key: its file is there, or that of another key of the same SKI and kind. */
  lemma {:induction false} NeverLost(c: Codec, pwd: Bytes, keys: seq<Key>, k: Key)
    requires k in keys && Accepted(c, pwd, k)
    ensures ReadFile(AfterStoring(c, pwd, keys), FileName(Hex(Ski(c, k)), SuffixOf(k))).Some?
  {
    var earlier, last := keys[..|keys| - 1], keys[|keys| - 1];
    assert earlier + [last] == keys;
    var before, name := AfterStoring(c, pwd, earlier), FileName(Hex(Ski(c, k)), SuffixOf(k));
    ReachableInv(c, pwd, earlier);
    if k in earlier { NeverLost(c, pwd, earlier, k); }
    if Accepted(c, pwd, last) {
      WrittenReadable(before, FileName(Hex(Ski(c, last)), SuffixOf(last)), c.encode(last, pwd).value, name);
    }
  }

  lemma WrittenReadable(dir: seq<File>, name: string, content: Bytes, other: string)
    requires Listed(dir)
    ensures ReadFile(WriteFile(dir, name, content), other) == if other == name then Some(content) else ReadFile(dir, other)
  {
    var now := WriteFile(dir, name, content);
    WriteFileListed(dir, name, content);
    forall raw ensures ReadFile(now, other) == Some(raw) <==> (if other == name then raw == content else ReadFile(dir, other) == Some(raw)) {
      ReadFileIff(now, other, raw);
      ReadFileIff(dir, other, raw);
      WriteFileMembers(dir, name, content, File(other, raw));
    }
    assert ReadFile(now, other).Some? ==> ReadFile(now, other) == Some(ReadFile(now, other).value);
    assert ReadFile(dir, other).Some? ==> ReadFile(dir, other) == Some(ReadFile(dir, other).value);
  }

  // ------------------------------------------------------------- the theorems

  /** Reading the file of an alias and kind, if there is one, gives back the key that was stored. */
  lemma ReadBack(c: Codec, pwd: Bytes, dir: seq<File>, keys: seq<Key>, ski: Bytes, kind: Suffix) returns (k: Key)
    requires CodecLaw(c) && Inv(c, pwd, dir, keys)
    requires ReadFile(dir, FileName(Hex(ski), kind)).Some?
    ensures k in keys && Accepted(c, pwd, k) && Ski(c, k) == ski && SuffixOf(k) == kind
    ensures DecodeAs(c, kind, ReadFile(dir, FileName(Hex(ski), kind)).value, pwd) == Some(k)
  {
    var name := FileName(Hex(ski), kind);
    var raw := ReadFile(dir, name).value;
    ReadFileIff(dir, name, raw);
    assert FileOfSome(c, pwd, File(name, raw), keys);
    k :| k in keys && FileOf(c, pwd, File(name, raw), k);
    FileNameInjective(Ski(c, k), SuffixOf(k), ski, kind);
    assert Decodes(c, k, raw, pwd);
  }

  lemma {:induction false} SearchMatches(c: Codec, pwd: Bytes, dir: seq<File>, ski: Bytes)
    ensures Search(c, pwd, dir, ski).Some? ==> Ski(c, Search(c, pwd, dir, ski).value) == ski
  {
    if dir != [] { SearchMatches(c, pwd, dir[1..], ski); }
  }

  /** In any directory the scan finds the first file that decodes to a private key of the identifier, if there is one. */
  lemma {:induction false} SearchIff(c: Codec, pwd: Bytes, dir: seq<File>, ski: Bytes)
    ensures Search(c, pwd, dir, ski).Some? <==> exists i :: 0 <= i < |dir| && DecodesTo(c, pwd, dir[i], ski)
    ensures Search(c, pwd, dir, ski).Some? ==>
              exists i :: 0 <= i < |dir| && DecodesTo(c, pwd, dir[i], ski)
                          && (forall j :: 0 <= j < i ==> !DecodesTo(c, pwd, dir[j], ski))
                          && c.decodePrivate(dir[i].content, pwd) == Search(c, pwd, dir, ski)
  {
    if dir != [] && !DecodesTo(c, pwd, dir[0], ski) {
      SearchIff(c, pwd, dir[1..], ski);
      assert forall i :: 1 <= i < |dir| ==> dir[i] == dir[1..][i - 1];
      if Search(c, pwd, dir, ski).Some? {
        var i :| 0 <= i < |dir[1..]| && DecodesTo(c, pwd, dir[1..][i], ski)
                 && (forall j :: 0 <= j < i ==> !DecodesTo(c, pwd, dir[1..][j], ski))
                 && c.decodePrivate(dir[1..][i].content, pwd) == Search(c, pwd, dir, ski);
        assert dir[i + 1] == dir[1..][i];
        assert forall j :: 0 <= j < i + 1 ==> !DecodesTo(c, pwd, dir[j], ski);
      }
    }
  }

  predicate DecodesTo(c: Codec, pwd: Bytes, f: File, ski: Bytes) {
    c.decodePrivate(f.content, pwd).Some? && c.ski(c.decodePrivate(f.content, pwd).value.material) == ski
  }

  /** In every reachable state, GetKey returns only keys with the SKI asked for. */
  lemma LookupReturnsThatSki(c: Codec, pwd: Bytes, keys: seq<Key>, ski: Bytes)
    requires CodecLaw(c)
    ensures var r := Lookup(c, pwd, AfterStoring(c, pwd, keys), ski);
            r.Success? ==> Ski(c, r.value) == ski
  {
    var dir := AfterStoring(c, pwd, keys);
    ReachableInv(c, pwd, keys);
    if Lookup(c, pwd, dir, ski).Success? {
      match FirstKind(dir, Hex(ski)) {
        case Some(kind) => var k := ReadBack(c, pwd, dir, keys, ski, kind);
        case None => SearchMatches(c, pwd, dir, ski);
      }
    }
  }

  /** A file of a stored key starts with the alias of a 32-byte SKI exactly when the key has that SKI. */
  lemma PrefixIff(c: Codec, pwd: Bytes, f: File, k: Key, ski: Bytes)
    requires CodecLaw(c) && FileOf(c, pwd, f, k) && |ski| == 32
    ensures HasPrefix(f.name, Hex(ski)) <==> Ski(c, k) == ski
  {
    assert |Ski(c, k)| == 32;
    assert f.name[..64] == Hex(Ski(c, k));
    if HasPrefix(f.name, Hex(ski)) { HexInjective(Ski(c, k), ski); }
  }

  /** Which file getSuffix settles on: the symmetric one, else the public one, else the private one. */
  function Preferred(dir: seq<File>, ski: Bytes): Option<Suffix> {
    if ReadFile(dir, FileName(Hex(ski), KeySuffix)).Some? then Some(KeySuffix)
    else if ReadFile(dir, FileName(Hex(ski), Pk)).Some? then Some(Pk)
    else if ReadFile(dir, FileName(Hex(ski), Sk)).Some? then Some(Sk)
    else None
  }

  lemma {:induction false} FirstKindPreferred(c: Codec, pwd: Bytes, dir: seq<File>, keys: seq<Key>, ski: Bytes)
    requires CodecLaw(c) && Inv(c, pwd, dir, keys) && |ski| == 32
    ensures FirstKind(dir, Hex(ski)) == Preferred(dir, ski)
  {
    if dir != [] {
      var f, alias := dir[0], Hex(ski);
      assert f in dir && FileOfSome(c, pwd, f, keys);
      var k :| k in keys && FileOf(c, pwd, f, k);
      PrefixIff(c, pwd, f, k, ski);
      if Ski(c, k) == ski {
        KindOfFileName(alias, SuffixOf(k));
        FirstIsPreferred(dir, ski, SuffixOf(k));
      } else {
        assert FirstKind(dir, alias) == FirstKind(dir[1..], alias);
        OthersFileSkipped(c, pwd, dir, ski, k);
        assert forall g :: g in dir[1..] ==> g in dir;
        FirstKindPreferred(c, pwd, dir[1..], keys, ski);
      }
    }
  }

  lemma OthersFileSkipped(c: Codec, pwd: Bytes, dir: seq<File>, ski: Bytes, k: Key)
    requires dir != [] && FileOf(c, pwd, dir[0], k) && Ski(c, k) != ski
    ensures Preferred(dir, ski) == Preferred(dir[1..], ski)
  {
    forall s ensures dir[0].name != FileName(Hex(ski), s) { NameDiffers(c, k, ski, s); }
  }

  lemma NameDiffers(c: Codec, k: Key, ski: Bytes, s: Suffix)
    requires Ski(c, k) != ski
    ensures FileName(Hex(Ski(c, k)), SuffixOf(k)) != FileName(Hex(ski), s)
  {
    if FileName(Hex(Ski(c, k)), SuffixOf(k)) == FileName(Hex(ski), s) {
      FileNameInjective(Ski(c, k), SuffixOf(k), ski, s);
    }
  }

  lemma {:induction false} NotListedAfter(dir: seq<File>, name: string)
    requires forall i :: 0 <= i < |dir| ==> Below(name, dir[i].name)
    ensures forall other :: Below(other, name) || other == name ==> ReadFile(dir, other).None?
  {
    forall other | Below(other, name) || other == name ensures ReadFile(dir, other).None? {
      NotRead(dir, name, other);
    }
  }

  lemma {:induction false} NotRead(dir: seq<File>, name: string, other: string)
    requires forall i :: 0 <= i < |dir| ==> Below(name, dir[i].name)
    requires Below(other, name) || other == name
    ensures ReadFile(dir, other).None?
  {
    if dir != [] {
      if other == dir[0].name {
        if other != name { BelowTransitive(name, other, name); }
        BelowIrreflexive(name);
      }
      NotRead(dir[1..], name, other);
    }
  }

  /** The first listed file of an alias is its preferred one. */
  lemma FirstIsPreferred(dir: seq<File>, ski: Bytes, s: Suffix)
    requires Listed(dir) && dir != [] && dir[0].name == FileName(Hex(ski), s)
    ensures Preferred(dir, ski) == Some(s)
  {
    var alias := Hex(ski);
    SuffixOrder(alias);
    NotListedAfter(dir[1..], dir[0].name);
    if s != KeySuffix { FileNamesDiffer(ski, s, KeySuffix); }
    if s != Pk { FileNamesDiffer(ski, s, Pk); }
  }

  lemma FileNamesDiffer(ski: Bytes, s: Suffix, t: Suffix)
    requires s != t
    ensures FileName(Hex(ski), s) != FileName(Hex(ski), t)
  {
    KindOfFileName(Hex(ski), s);
    KindOfFileName(Hex(ski), t);
  }

  /**
   * After storing k, in any state reached before, GetKey finds a key with k's SKI: k itself
   * exactly when its file is the preferred one.  Unless two of the keys share an SKI without
   * sharing their public part, the key found has k's public part: a public or symmetric key comes
   * back itself, a private one as public exactly when the public file exists.
   */
  lemma StoredKeyFound(c: Codec, pwd: Bytes, keys: seq<Key>, k: Key)
    requires CodecLaw(c) && Stored(c, pwd, AfterStoring(c, pwd, keys), k).Success?
    ensures var dir := Stored(c, pwd, AfterStoring(c, pwd, keys), k).value;
            var r := Lookup(c, pwd, dir, Ski(c, k));
            && r.Success? && Ski(c, r.value) == Ski(c, k)
            && (r.value == k <==> Preferred(dir, Ski(c, k)) == Some(SuffixOf(k)))
    ensures Apart(c, keys + [k]) ==>
            var dir := Stored(c, pwd, AfterStoring(c, pwd, keys), k).value;
            var r := Lookup(c, pwd, dir, Ski(c, k));
            && r.value.material == k.material
            && (k.Public? || IsAes(k) ==> r.value == k)
            && (IsPrivate(k) ==> (r.value.Public? <==> ReadFile(dir, FileName(Hex(Ski(c, k)), Pk)).Some?))
  {
    var before, all := AfterStoring(c, pwd, keys), keys + [k];
    ReachableInv(c, pwd, keys);
    StoredKeepsInv(c, pwd, before, keys, k);
    var dir, ski := Stored(c, pwd, before, k).value, Ski(c, k);
    WrittenReadable(before, FileName(Hex(ski), SuffixOf(k)), c.encode(k, pwd).value, FileName(Hex(ski), SuffixOf(k)));
    FirstKindPreferred(c, pwd, dir, all, ski);
    var found := ReadBack(c, pwd, dir, all, ski, Preferred(dir, ski).value);
    assert Decodes(c, k, c.encode(k, pwd).value, pwd);
    if Apart(c, all) {
      assert found.material == k.material;
      if k.Public? && ReadFile(dir, FileName(Hex(ski), KeySuffix)).Some? {
        var other := ReadBack(c, pwd, dir, all, ski, KeySuffix);
      }
    }
  }

  /** A private key stored after its own public key: both files exist, and the public key is found. */
  lemma PublicFileWins(c: Codec, pwd: Bytes, public: Key, private: Key)
    requires CodecLaw(c) && IsPrivate(private) && public == Public(private.material)
    requires Accepted(c, pwd, public) && Accepted(c, pwd, private)
    ensures Lookup(c, pwd, AfterStoring(c, pwd, [public, private]), Ski(c, private)) == Success(public)
  {
    var keys := [public];
    assert [public, private][..1] == keys && keys[..0] == [];
    NeverLost(c, pwd, [public, private], public);
    StoredKeyFound(c, pwd, keys, private);
    ReachableInv(c, pwd, [public, private]);
    var dir := AfterStoring(c, pwd, [public, private]);
    FirstKindPreferred(c, pwd, dir, [public, private], Ski(c, private));
    var found := ReadBack(c, pwd, dir, [public, private], Ski(c, private), Preferred(dir, Ski(c, private)).value);
  }

  /** These hypotheses can be met. */
  lemma LawfulStore() returns (c: Codec, public: Key, private: Key)
    ensures CodecLaw(c) && IsPrivate(private) && public == Public(private.material)
    ensures Accepted(c, [], public) && Accepted(c, [], private)
  {
    public, private := Public(EcPoint(1, 2)), Private(3, EcPoint(1, 2));
    c := Codec(
      _ => Zeros(32),
      (k, _) => if k == Public(EcPoint(1, 2)) then Some([0])
                else if k == Private(3, EcPoint(1, 2)) then Some([1]) else None,
      (raw, _) => if raw == [1] then Some(Private(3, EcPoint(1, 2))) else None,
      (_, _) => Some(Public(EcPoint(1, 2))),
      (_, _) => None);
  }

  lemma {:induction false} SearchFindsStored(c: Codec, pwd: Bytes, dir: seq<File>, keys: seq<Key>, ski: Bytes)
    requires CodecLaw(c) && (forall f :: f in dir ==> FileOfSome(c, pwd, f, keys))
    ensures Search(c, pwd, dir, ski).Some? ==>
              var k := Search(c, pwd, dir, ski).value; k in keys && Accepted(c, pwd, k) && Ski(c, k) == ski
  {
    if dir != [] {
      var f := dir[0];
      assert f in dir && FileOfSome(c, pwd, f, keys);
      var k :| k in keys && FileOf(c, pwd, f, k);
      assert Decodes(c, k, f.content, pwd);
      assert forall g :: g in dir[1..] ==> g in dir;
      SearchFindsStored(c, pwd, dir[1..], keys, ski);
    }
  }

  /** In every reachable state, GetKey succeeds exactly for the SKIs of the keys that were accepted. */
  lemma LookupSucceedsIff(c: Codec, pwd: Bytes, keys: seq<Key>, ski: Bytes)
    requires CodecLaw(c)
    ensures Lookup(c, pwd, AfterStoring(c, pwd, keys), ski).Success? <==>
            exists k :: k in keys && Accepted(c, pwd, k) && Ski(c, k) == ski
  {
    var dir := AfterStoring(c, pwd, keys);
    ReachableInv(c, pwd, keys);
    if k :| k in keys && Accepted(c, pwd, k) && Ski(c, k) == ski {
      NeverLost(c, pwd, keys, k);
      assert |ski| == 32;
      FirstKindPreferred(c, pwd, dir, keys, ski);
      var found := ReadBack(c, pwd, dir, keys, ski, Preferred(dir, ski).value);
    }
    if Lookup(c, pwd, dir, ski).Success? {
      match FirstKind(dir, Hex(ski)) {
        case Some(kind) => var k := ReadBack(c, pwd, dir, keys, ski, kind);
        case None => SearchFindsStored(c, pwd, dir, keys, ski);
      }
    }
  }
}
