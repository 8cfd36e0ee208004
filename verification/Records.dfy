/** Content hashes, revisions and the universal persisted record.
    A content hash is modelled as an ideal collision-free digest: it is identified
    with the bytes it was taken of, and ordered by an injective rank. */
module Records {
  import opened Wrappers

  newtype byte = x: int | 0 <= x < 256

  datatype ContentHash = ContentHash(preimage: seq<byte>)

  function HashOf(content: seq<byte>): ContentHash {
    ContentHash(content)
  }

  /** An injective numbering of byte strings: the order digests are compared in. */
  function Rank(s: seq<byte>): nat {
    if s == [] then 0 else 1 + s[0] as int + 256 * Rank(s[1..])
  }

  lemma {:induction false} RankInjective(s: seq<byte>, t: seq<byte>)
    requires Rank(s) == Rank(t)
    ensures s == t
  {
    if s == [] || t == [] {
    } else {
      assert s[0] as int == (Rank(s) - 1) % 256 && t[0] as int == (Rank(t) - 1) % 256;
      RankInjective(s[1..], t[1..]);
      assert s == [s[0]] + s[1..] && t == [t[0]] + t[1..];
    }
  }

  /** A write counter plus the body's hash. */
  datatype Revision = Revision(counter: nat, hash: ContentHash) {
    function Next(content: seq<byte>): Revision {
      Revision(counter + 1, HashOf(content))
    }
  }

  function Initial(content: seq<byte>): Revision {
    Revision(0, HashOf(content))
  }

  /** The order ancestor lists are kept in: counter first, then hash. */
  predicate Newer(a: Revision, b: Revision) {
    a.counter > b.counter
    || (a.counter == b.counter && Rank(a.hash.preimage) > Rank(b.hash.preimage))
  }

  lemma NewerIsTotal(a: Revision, b: Revision)
    ensures a == b || Newer(a, b) || Newer(b, a)
    ensures !(Newer(a, b) && Newer(b, a))
  {
    if Rank(a.hash.preimage) == Rank(b.hash.preimage) {
      RankInjective(a.hash.preimage, b.hash.preimage);
    }
  }

  datatype RecordKey = RecordKey(ns: seq<byte>, collection: seq<byte>, id: seq<byte>)

  datatype RecordKind =
    | MemoryTier | Topic | Session | Checkpoint | Ticket | TicketEvent
    | GraphManifest | VectorManifest
    | Person | IdentityBinding | RoleGrant | ChannelConfig | LinkToken | AuditEntry
    | Tombstone

  datatype MergeClass = AppendOnly | Structured | Opaque | Derived

  function MergeClassOf(kind: RecordKind): MergeClass {
    match kind
    case Topic | Session | TicketEvent => AppendOnly
    case MemoryTier | Ticket | Person | IdentityBinding | RoleGrant | ChannelConfig => Structured
    case GraphManifest => Derived
    case Checkpoint | LinkToken | AuditEntry | VectorManifest | Tombstone => Opaque
  }

  /** The kinds whose body names blobs, so that a tombstone keeps it. */
  predicate IsManifest(kind: RecordKind) {
    kind == GraphManifest || kind == VectorManifest
  }

  function HexDigit(n: nat): byte
    requires n < 16
  {
    if n < 10 then (48 + n) as byte else (87 + n) as byte
  }

  /** The hexadecimal text of a digest, two digits a byte. */
  function HexText(s: seq<byte>): seq<byte> {
    if s == [] then [] else [HexDigit(s[0] as int / 16), HexDigit(s[0] as int % 16)] + HexText(s[1..])
  }

  lemma HexDigitInjective(m: nat, n: nat)
    requires m < 16 && n < 16 && HexDigit(m) == HexDigit(n)
    ensures m == n
  {
  }

  /** Two digests never share their text, so blob bodies never share a hash unless their contents do. */
  lemma {:induction false} HexTextInjective(s: seq<byte>, t: seq<byte>)
    requires HexText(s) == HexText(t)
    ensures s == t
  {
    if s == [] || t == [] {
    } else {
      var u, v := HexText(s), HexText(t);
      assert u[0] == v[0] && u[1] == v[1] && u[2..] == HexText(s[1..]) && v[2..] == HexText(t[1..]);
      HexDigitInjective(s[0] as int / 16, t[0] as int / 16);
      HexDigitInjective(s[0] as int % 16, t[0] as int % 16);
      HexTextInjective(s[1..], t[1..]);
      assert s == [s[0]] + s[1..] && t == [t[0]] + t[1..];
    }
  }

  datatype Body = Inline(content: seq<byte>) | Blob(hash: ContentHash, len: nat) {
    /** The bytes that are hashed and merged: for a blob, the text of its hash, not the content. */
    function Bytes(): seq<byte> {
      match this
      case Inline(content) => content
      case Blob(hash, _) => HexText(hash.preimage)
    }
  }

  /** Provenance and labels; times are milliseconds since the Unix epoch. */
  datatype Meta = Meta(author: string, origin: string, created: int, updated: int, labels: map<string, string>)

  datatype Record = Record(
    key: RecordKey,
    kind: RecordKind,
    revision: Revision,
    parent: Option<Revision>,
    body: Body,
    meta: Meta,
    links: seq<RecordKey>,
    ancestors: seq<Revision>,
    deletedAt: Option<int>,
    deletedBlob: Option<ContentHash>,
    deletedKind: Option<RecordKind>)
  {
    predicate IsTombstone() {
      kind == Tombstone
    }

    /** The next version of this record, as a client builds it; its links carry over. */
    function Update(newBody: Body, writer: Meta): Record {
      Record(key, kind, revision.Next(newBody.Bytes()), Some(revision), newBody, writer,
             links, [], None, None, None)
    }
  }

  /** A record that does not exist yet, as a client builds it. */
  function Create(key: RecordKey, kind: RecordKind, body: Body, writer: Meta): Record {
    Record(key, kind, Initial(body.Bytes()), None, body, writer, [], [], None, None, None)
  }

  /** The bytes hashed to form every tombstone's revision: "gonzalo:tombstone:v1". */
  const TOMBSTONE_DOMAIN: seq<byte> :=
    [103, 111, 110, 122, 97, 108, 111, 58, 116, 111, 109, 98, 115, 116, 111, 110, 101, 58, 118, 49]

  lemma TombstoneDomainIsSpelt()
    ensures |TOMBSTONE_DOMAIN| == |"gonzalo:tombstone:v1"|
    ensures forall i :: 0 <= i < |TOMBSTONE_DOMAIN| ==> TOMBSTONE_DOMAIN[i] as int == "gonzalo:tombstone:v1"[i] as int
  {
  }

  function TombstoneHash(): ContentHash {
    HashOf(TOMBSTONE_DOMAIN)
  }
}
