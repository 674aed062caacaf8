/** The expressions inside `send` and `sendMass`
    (src/service/whatsapp/whatsapp.service.ts) as functions: chat-id
    qualification, base64 prefix stripping, the choice between media and
    text, recipient-list parsing, `{{ name }}` substitution and the optional
    timestamp footer. */
module Dispatch {
  import opened Base
  import opened Text

  /* ---------- requests and what goes on the wire ---------- */

  /** `SendMessageDto`, plus `enableTimeNotes`, which `sendMass` reads
      although the DTO does not declare it. */
  datatype SendRequest = SendRequest(
    sessionName: string,
    to: string,
    message: Option<string>,
    mediaBase64: Option<string>,
    mediaMimeType: Option<string>,
    mediaFileName: Option<string>,
    enableTimeNotes: Option<bool>)

  /** What `client.sendMessage` is given: a text, or a `MessageMedia` with
      its caption. */
  datatype Content =
    | Plain(body: string)
    | Media(mimeType: string, data: string, fileName: string, caption: string)

  /** JavaScript truthiness of an optional string: present and non-empty. */
  predicate Truthy(s: Option<string>) {
    s.Some? && s.value != ""
  }

  predicate HasMedia(req: SendRequest) {
    Truthy(req.mediaBase64) && Truthy(req.mediaMimeType)
  }

  /* ---------- chat id ---------- */

  const UserSuffix := "@c.us"

  /** `to.includes('@') ? to : `${to}@c.us``: a bare number becomes a
      personal chat id; anything already qualified is kept. */
  function ChatId(to: string): (id: string)
    ensures '@' in id
    ensures StartsWith(id, to)
    ensures id == to <==> '@' in to
    ensures '@' !in to ==> id[|to|..] == UserSuffix
  {
    if '@' in to then to else to + UserSuffix
  }

  /** Qualifying twice is the same as qualifying once. */
  lemma ChatIdIdempotent(to: string)
    ensures ChatId(ChatId(to)) == ChatId(to)
  {
  }

  /* ---------- base64 prefix stripping ---------- */

  const DataScheme := "data:"
  const Base64Marker := ";base64,"
  const BareMarker := "base64,"

  /** `s[..end]` is matched by `^data:.*;base64,` (a `.` matches anything but
      a line terminator). */
  predicate DataUriHeader(s: string, end: nat) {
    && |DataScheme| + |Base64Marker| <= end <= |s|
    && StartsWith(s, DataScheme)
    && s[end - |Base64Marker|..end] == Base64Marker
    && forall i :: |DataScheme| <= i < end - |Base64Marker| ==> !IsLineTerminator(s[i])
  }

  /** The greedy `.*` picks the longest header that ends at or before
      `bound`. */
  function LongestDataUriHeader(s: string, bound: nat): (r: Option<nat>)
    requires bound <= |s|
    ensures r.Some? ==> r.value <= bound && DataUriHeader(s, r.value)
    ensures r.Some? ==> forall e :: r.value < e <= bound ==> !DataUriHeader(s, e)
    ensures r.None? ==> forall e: nat :: e <= bound ==> !DataUriHeader(s, e)
    decreases bound
  {
    if DataUriHeader(s, bound) then Some(bound)
    else if bound == 0 then None
    else LongestDataUriHeader(s, bound - 1)
  }

  /** `.replace(/^data:.*;base64,/, '').replace(/^base64,/, '')`. */
  function StripBase64Prefix(data: string): (r: string)
    ensures |r| <= |data| && r == data[|data| - |r|..]
  {
    var afterUri := match LongestDataUriHeader(data, |data|)
      case Some(e) => data[e..]
      case None => data;
    if StartsWith(afterUri, BareMarker) then afterUri[|BareMarker|..] else afterUri
  }

  /** The standard base64 alphabet. */
  predicate IsBase64Char(c: char) {
    IsAsciiLetter(c) || IsAsciiDigit(c) || c == '+' || c == '/' || c == '='
  }

  predicate IsBase64Text(s: string) {
    forall i :: 0 <= i < |s| ==> IsBase64Char(s[i])
  }

  /** A string that differs from `prefix` at position `k` does not start
      with it. */
  lemma DiffersAt(s: string, prefix: string, k: nat)
    requires k < |prefix|
    requires k < |s| ==> s[k] != prefix[k]
    ensures !StartsWith(s, prefix)
  {
  }

  /** The header of `data:<mime>;base64,<payload>` ends where the payload
      starts. */
  lemma DataUriHeaderAtPayload(mime: string, payload: string)
    requires forall i :: 0 <= i < |mime| ==> !IsLineTerminator(mime[i])
    ensures DataUriHeader(DataScheme + mime + Base64Marker + payload,
                          |DataScheme| + |mime| + |Base64Marker|)
  {
    var s := DataScheme + mime + Base64Marker + payload;
    var e0 := |DataScheme| + |mime| + |Base64Marker|;
    assert s[..|DataScheme|] == DataScheme;
    assert s[e0 - |Base64Marker|..e0] == Base64Marker;
    assert forall i :: |DataScheme| <= i < e0 - |Base64Marker| ==> s[i] == mime[i - |DataScheme|];
  }

  /** No header of `data:<mime>;base64,<payload>` reaches into the payload:
      its `;` would have to sit inside the marker or the payload. */
  lemma NoDataUriHeaderBeyond(mime: string, payload: string, e: nat)
    requires IsBase64Text(payload)
    requires |DataScheme| + |mime| + |Base64Marker| < e
    ensures !DataUriHeader(DataScheme + mime + Base64Marker + payload, e)
  {
    var s := DataScheme + mime + Base64Marker + payload;
    var e0 := |DataScheme| + |mime| + |Base64Marker|;
    if e <= |s| {
      var p := e - |Base64Marker|;
      if e0 <= p {
        assert s[p] == payload[p - e0];
      } else {
        assert s[p] == Base64Marker[p - (e0 - |Base64Marker|)];
      }
      assert s[e - |Base64Marker|..e][0] == s[p];
    }
  }

  /** A data URI yields its payload. */
  lemma StripDataUri(mime: string, payload: string)
    requires forall i :: 0 <= i < |mime| ==> !IsLineTerminator(mime[i])
    requires IsBase64Text(payload)
    ensures StripBase64Prefix(DataScheme + mime + Base64Marker + payload) == payload
  {
    var s := DataScheme + mime + Base64Marker + payload;
    var e0 := |DataScheme| + |mime| + |Base64Marker|;
    DataUriHeaderAtPayload(mime, payload);
    var r := LongestDataUriHeader(s, |s|);
    if r != Some(e0) {
      NoDataUriHeaderBeyond(mime, payload, r.value);
      assert false;
    }
    assert s[e0..] == payload;
    DiffersAt(payload, BareMarker, 6);
  }

  /** A payload behind a bare `base64,` comes out without it. */
  lemma StripBareMarker(payload: string)
    ensures StripBase64Prefix(BareMarker + payload) == payload
  {
    var s := BareMarker + payload;
    assert s[0] == 'b';
    assert !StartsWith(s, DataScheme);
    assert s[|BareMarker|..] == payload;
  }

  /** Raw base64 is passed through unchanged. */
  lemma StripRawPayload(payload: string)
    requires IsBase64Text(payload)
    ensures StripBase64Prefix(payload) == payload
  {
    DiffersAt(payload, DataScheme, 4);
    DiffersAt(payload, BareMarker, 6);
    assert LongestDataUriHeader(payload, |payload|) == None;
  }

  /* ---------- media or text ---------- */

  /** The body of `send` after the readiness checks: media (base64 and MIME
      type both given) wins over text; `None` is 'No message or media
      provided'. */
  function Compose(req: SendRequest): (c: Option<Content>)
    ensures c.None? <==> !HasMedia(req) && !Truthy(req.message)
    ensures HasMedia(req) ==>
              && c.Some? && c.value.Media?
              && c.value.mimeType == req.mediaMimeType.value
              && c.value.data == StripBase64Prefix(req.mediaBase64.value)
              && c.value.fileName == (if Truthy(req.mediaFileName) then req.mediaFileName.value else "file")
              && c.value.caption == req.message.GetOr("")
    ensures !HasMedia(req) && Truthy(req.message) ==> c == Some(Plain(req.message.value))
  {
    if HasMedia(req) then
      Some(Media(
        req.mediaMimeType.value,
        StripBase64Prefix(req.mediaBase64.value),
        if Truthy(req.mediaFileName) then req.mediaFileName.value else "file",
        if Truthy(req.message) then req.message.value else ""))
    else if Truthy(req.message) then Some(Plain(req.message.value))
    else None
  }

  /* ---------- recipients ---------- */

  datatype Recipient = Recipient(address: string, alias: string)

  /** `.map((s) => s.trim()).filter(Boolean)` */
  function Clean(parts: seq<string>): (entries: seq<string>)
    ensures |entries| <= |parts|
    ensures forall k :: 0 <= k < |entries| ==> entries[k] != [] && Trim(entries[k]) == entries[k]
  {
    if parts == [] then []
    else
      var t := Trim(parts[0]);
      TrimIdempotent(parts[0]);
      (if t == [] then [] else [t]) + Clean(parts[1..])
  }

  /** A character in no part is in no entry. */
  lemma {:induction false} CleanKeepsOut(parts: seq<string>, c: char)
    requires forall m :: 0 <= m < |parts| ==> c !in parts[m]
    ensures forall k :: 0 <= k < |Clean(parts)| ==> c !in Clean(parts)[k]
  {
    if parts != [] {
      CleanKeepsOut(parts[1..], c);
      var p := parts[0];
      assert c !in p;
      assert c !in p[TrimFrom(p)..TrimTo(p)];
    }
  }

  lemma {:induction false} CleanAppend(a: seq<string>, b: seq<string>)
    ensures Clean(a + b) == Clean(a) + Clean(b)
  {
    if a == [] {
      assert a + b == b;
    } else {
      assert (a + b)[0] == a[0] && (a + b)[1..] == a[1..] + b;
      CleanAppend(a[1..], b);
    }
  }

  /** The trimmed, non-empty, comma-separated entries of `to`, in order. */
  function Entries(to: string): (entries: seq<string>)
    ensures forall k :: 0 <= k < |entries| ==> entries[k] != [] && Trim(entries[k]) == entries[k]
    ensures forall k :: 0 <= k < |entries| ==> ',' !in entries[k]
  {
    SplitPieces(to, ',');
    CleanKeepsOut(Split(to, ','), ',');
    Clean(Split(to, ','))
  }

  /** `dest.split('|')[0]` is the address and `dest.split('|')[1] ?? ''` the
      alias: the text before the first `|`, and the text between the first
      and the second `|` (or to the end). */
  function ParseRecipient(entry: string): (r: Recipient)
    ensures '|' !in r.address && StartsWith(entry, r.address)
    ensures |r.address| < |entry| ==> entry[|r.address|] == '|'
    ensures '|' !in entry ==> r == Recipient(entry, "")
    ensures '|' in entry ==> '|' !in r.alias && StartsWith(entry[|r.address| + 1..], r.alias)
    ensures '|' in entry && |r.address| + 1 + |r.alias| < |entry| ==> entry[|r.address| + 1 + |r.alias|] == '|'
  {
    var fields := Split(entry, '|');
    SplitPieces(entry, '|');
    SplitThenJoin(entry, '|');
    if |fields| == 1 then Recipient(fields[0], "")
    else
      assert entry == fields[0] + "|" + Join(fields[1..], '|');
      assert |fields[1..]| > 1 ==> Join(fields[1..], '|') == fields[1] + "|" + Join(fields[2..], '|');
      Recipient(fields[0], fields[1])
  }

  function ParseAll(entries: seq<string>): (rs: seq<Recipient>)
    ensures |rs| == |entries|
    ensures forall k :: 0 <= k < |rs| ==> rs[k] == ParseRecipient(entries[k])
  {
    if entries == [] then [] else [ParseRecipient(entries[0])] + ParseAll(entries[1..])
  }

  lemma {:induction false} ParseAllAppend(x: seq<string>, y: seq<string>)
    ensures ParseAll(x + y) == ParseAll(x) + ParseAll(y)
  {
    if x == [] {
      assert x + y == y;
    } else {
      assert (x + y)[0] == x[0] && (x + y)[1..] == x[1..] + y;
      ParseAllAppend(x[1..], y);
    }
  }

  /** The recipients of a broadcast, one per non-empty entry of `to`. */
  function Recipients(to: string): (rs: seq<Recipient>)
    ensures |rs| == |Entries(to)|
    ensures forall k :: 0 <= k < |rs| ==> rs[k] == ParseRecipient(Entries(to)[k])
  {
    ParseAll(Entries(to))
  }

  /** Recipients keep the order of the input: the list for `a,b` is the list
      for `a` followed by the list for `b`. */
  lemma RecipientsAppend(a: string, b: string)
    ensures Entries(a + "," + b) == Entries(a) + Entries(b)
    ensures Recipients(a + "," + b) == Recipients(a) + Recipients(b)
  {
    EntriesAppend(a, b);
    ParseAllAppend(Entries(a), Entries(b));
  }

  /** The targets of `a,b` are the targets of `a` followed by those of `b`. */
  lemma EntriesAppend(a: string, b: string)
    ensures Entries(a + "," + b) == Entries(a) + Entries(b)
  {
    SplitAppend(a, ',', b);
    CleanAppend(Split(a, ','), Split(b, ','));
  }

  /** `trim` then `filter(Boolean)` on one piece: the trimmed piece, or
      nothing when only whitespace was there. With `CleanAppend` this fixes
      `Clean` on every list of pieces. */
  lemma CleanOne(p: string)
    ensures Clean([p]) == if Trim(p) == [] then [] else [Trim(p)]
  {
    assert [p][1..] == [];
  }

  /** A comma-free piece of `to` is one target, its trimmed text, or none
      when it is blank. */
  lemma EntriesOfPiece(p: string)
    requires ',' !in p
    ensures Entries(p) == if Trim(p) == [] then [] else [Trim(p)]
  {
    SplitWithoutSeparator(p, ',');
    CleanOne(p);
  }

  /** Whitespace around a comma-free entry is trimmed away. */
  lemma EntriesIgnorePadding(lead: string, e: string, trail: string)
    requires AllWhitespace(lead) && AllWhitespace(trail) && ',' !in e
    ensures Entries(lead + e + trail) == Entries(e)
  {
    WhitespaceLacks(lead, ',');
    WhitespaceLacks(trail, ',');
    assert ',' !in lead + e + trail;
    EntriesOfPiece(lead + e + trail);
    EntriesOfPiece(e);
    TrimIgnoresPadding(lead, e, trail);
  }

  /** A blank entry between two commas is dropped. */
  lemma EntriesDropBlank(a: string, w: string, b: string)
    requires AllWhitespace(w)
    ensures Entries(a + "," + w + "," + b) == Entries(a) + Entries(b)
  {
    CommaAround(a, w, b);
    EntriesAppend(a, w + "," + b);
    EntriesAppend(w, b);
    EntriesBlank(w);
    AppendEmpty(Entries(w), Entries(b));
  }

  /** A blank `to` has no target. */
  lemma EntriesBlank(w: string)
    requires AllWhitespace(w)
    ensures Entries(w) == []
  {
    WhitespaceLacks(w, ',');
    EntriesOfPiece(w);
    TrimBlank(w);
  }

  /** Two entries, the first padded, with a blank entry between them: the
      padding is trimmed and the blank entry dropped. */
  lemma PaddedEntries(e1: string, e2: string)
    requires e1 != [] && ',' !in e1 && !IsWhitespace(e1[0]) && !IsWhitespace(e1[|e1| - 1])
    requires e2 != [] && ',' !in e2 && !IsWhitespace(e2[0]) && !IsWhitespace(e2[|e2| - 1])
    ensures Entries((" " + e1 + " ") + "," + " " + "," + e2) == [e1, e2]
  {
    EntriesDropBlank(" " + e1 + " ", " ", e2);
    EntriesIgnorePadding(" ", e1, " ");
    Unpadded(e1);
    Unpadded(e2);
  }

  /** A list with padding and a blank entry: ` 628|Al , ,629|Bo`. */
  lemma PaddedEntriesExample(to: string)
    requires to == " 628|Al , ,629|Bo"
    ensures Entries(to) == ["628|Al", "629|Bo"]
  {
    var e1, e2 := "628|Al", "629|Bo";
    assert to == (" " + e1 + " ") + "," + " " + "," + e2;
    PaddedEntries(e1, e2);
  }

  /** The padded list with a blank entry gives one recipient per
      non-blank entry, in order. */
  lemma PaddedRecipients(a1: string, n1: string, a2: string, n2: string)
    requires '|' !in a1 && '|' !in n1 && ',' !in a1 && ',' !in n1
    requires a1 != [] && !IsWhitespace(a1[0]) && n1 != [] && !IsWhitespace(n1[|n1| - 1])
    requires '|' !in a2 && '|' !in n2 && ',' !in a2 && ',' !in n2
    requires a2 != [] && !IsWhitespace(a2[0]) && n2 != [] && !IsWhitespace(n2[|n2| - 1])
    ensures Recipients((" " + (a1 + "|" + n1) + " ") + "," + " " + "," + (a2 + "|" + n2))
         == [Recipient(a1, n1), Recipient(a2, n2)]
  {
    var e1, e2 := a1 + "|" + n1, a2 + "|" + n2;
    assert e1[0] == a1[0] && e1[|e1| - 1] == n1[|n1| - 1];
    assert e2[0] == a2[0] && e2[|e2| - 1] == n2[|n2| - 1];
    PaddedEntries(e1, e2);
    ParseAddressAlias(a1, n1);
    ParseAddressAlias(a2, n2);
  }

  /** The same list gives the two recipients, in order. */
  lemma PaddedRecipientsExample(to: string)
    requires to == " 628|Al , ,629|Bo"
    ensures Recipients(to) == [Recipient("628", "Al"), Recipient("629", "Bo")]
  {
    var a1, n1, a2, n2 := "628", "Al", "629", "Bo";
    assert to == (" " + (a1 + "|" + n1) + " ") + "," + " " + "," + (a2 + "|" + n2);
    PaddedRecipients(a1, n1, a2, n2);
  }

  /** A comma-free entry with no whitespace at its ends is its own target. */
  lemma Unpadded(e: string)
    requires e != [] && ',' !in e && !IsWhitespace(e[0]) && !IsWhitespace(e[|e| - 1])
    ensures Entries(e) == [e]
  {
    assert e == [] + e + [];
    TrimUnique(e, [], e, []);
    EntriesOfPiece(e);
  }

  /** An entry with nothing to trim and no comma is one recipient. */
  lemma SingleEntry(entry: string)
    requires entry != [] && ',' !in entry && Trim(entry) == entry
    ensures Entries(entry) == [entry]
  {
    SplitWithoutSeparator(entry, ',');
  }

  /** An `address|alias` entry splits into its two halves. */
  lemma ParseAddressAlias(address: string, alias: string)
    requires '|' !in address && '|' !in alias
    ensures ParseRecipient(address + "|" + alias) == Recipient(address, alias)
  {
    SplitAppend(address, '|', alias);
    SplitWithoutSeparator(address, '|');
    SplitWithoutSeparator(alias, '|');
  }

  /** One `address|alias` entry with nothing to trim is one recipient. */
  lemma SingleRecipient(address: string, alias: string)
    requires '|' !in address && '|' !in alias && ',' !in address && ',' !in alias
    requires address != [] && !IsWhitespace(address[0])
    requires alias != [] && !IsWhitespace(alias[|alias| - 1])
    ensures Recipients(address + "|" + alias) == [Recipient(address, alias)]
  {
    var e := address + "|" + alias;
    assert e[0] == address[0] && e[|e| - 1] == alias[|alias| - 1];
    assert e == [] + e + [];
    assert AllWhitespace([]);
    TrimUnique(e, [], e, []);
    SingleEntry(e);
    ParseAddressAlias(address, alias);
  }

  /** Two `address|alias` entries become two recipients, in order. */
  lemma TwoRecipients(a1: string, n1: string, a2: string, n2: string)
    requires '|' !in a1 && '|' !in n1 && ',' !in a1 && ',' !in n1
    requires a1 != [] && !IsWhitespace(a1[0]) && n1 != [] && !IsWhitespace(n1[|n1| - 1])
    requires '|' !in a2 && '|' !in n2 && ',' !in a2 && ',' !in n2
    requires a2 != [] && !IsWhitespace(a2[0]) && n2 != [] && !IsWhitespace(n2[|n2| - 1])
    ensures Recipients(a1 + "|" + n1 + "," + a2 + "|" + n2) == [Recipient(a1, n1), Recipient(a2, n2)]
  {
    var a, b := a1 + "|" + n1, a2 + "|" + n2;
    assert a + "," + b == a1 + "|" + n1 + "," + a2 + "|" + n2;
    RecipientsAppend(a, b);
    SingleRecipient(a1, n1);
    SingleRecipient(a2, n2);
  }

  /** The broadcast example: `6281111|Alice,6281112|Bob`. */
  lemma RecipientsExample(to: string)
    requires to == "6281111|Alice,6281112|Bob"
    ensures Recipients(to) == [Recipient("6281111", "Alice"), Recipient("6281112", "Bob")]
  {
    var a1, n1, a2, n2 := "6281111", "Alice", "6281112", "Bob";
    assert to == a1 + "|" + n1 + "," + a2 + "|" + n2;
    TwoRecipients(a1, n1, a2, n2);
  }

  /* ---------- {{ name }} substitution ---------- */

  /** `{{`, optional whitespace, `name`, optional whitespace, `}}`. */
  function Placeholder(w1: string, w2: string): string {
    "{{" + w1 + "name" + w2 + "}}"
  }

  /** Length of the match of `{{\s*name\s*}}` at the start of `s`, if any. */
  function PlaceholderLength(s: string): (r: Option<nat>)
    ensures r.Some? ==> 8 <= r.value <= |s|
  {
    if !StartsWith(s, "{{") then None
    else
      var i := 2 + LeadingWhitespace(s[2..]);
      if !StartsWith(s[i..], "name") then None
      else
        var j := i + 4 + LeadingWhitespace(s[i + 4..]);
        if !StartsWith(s[j..], "}}") then None else Some(j + 2)
  }

  /** Whitespace `w` then a non-whitespace literal: the scan skips exactly
      `w` and lands on the literal. */
  lemma WhitespaceThen(x: string, w: string, lit: string, rest: string)
    requires AllWhitespace(w) && lit != [] && !IsWhitespace(lit[0])
    requires x == w + lit + rest
    ensures LeadingWhitespace(x) == |w|
    ensures x[|w|..] == lit + rest && StartsWith(x[|w|..], lit)
  {
    assert x[..|w|] == w && x[|w|] == lit[0];
    LeadingWhitespaceIs(x, |w|);
    assert x[|w|..] == lit + rest;
    assert (lit + rest)[..|lit|] == lit;
  }

  /** A match found at the start of `s` is a placeholder. */
  lemma PlaceholderLengthSound(s: string)
    requires PlaceholderLength(s).Some?
    ensures exists w1, w2 ::
              && AllWhitespace(w1) && AllWhitespace(w2)
              && StartsWith(s, Placeholder(w1, w2))
              && PlaceholderLength(s).value == |Placeholder(w1, w2)|
  {
    var i := 2 + LeadingWhitespace(s[2..]);
    var j := i + 4 + LeadingWhitespace(s[i + 4..]);
    LeadingWhitespaceSpec(s[2..]);
    LeadingWhitespaceSpec(s[i + 4..]);
    PrefixOfSuffix(s, 2, i - 2);
    PrefixOfSuffix(s, i + 4, j - i - 4);
    FivePieces(s, i, j);
  }

  /** The suffixes of `s` at the parts of a placeholder it starts with. */
  lemma PlaceholderParts(s: string, w1: string, w2: string)
    requires StartsWith(s, Placeholder(w1, w2))
    ensures var t := s[|Placeholder(w1, w2)|..];
            && s[..2] == "{{"
            && s[2..] == w1 + "name" + (w2 + "}}" + t)
            && s[2 + |w1| + 4..] == w2 + "}}" + t
  {
    var t := s[|Placeholder(w1, w2)|..];
    assert s == "{{" + w1 + "name" + (w2 + "}}" + t);
  }

  /** Every placeholder at the start of `s` is found, whole. */
  lemma PlaceholderLengthComplete(s: string, w1: string, w2: string)
    requires AllWhitespace(w1) && AllWhitespace(w2) && StartsWith(s, Placeholder(w1, w2))
    ensures PlaceholderLength(s) == Some(|Placeholder(w1, w2)|)
  {
    var t := s[|Placeholder(w1, w2)|..];
    PlaceholderParts(s, w1, w2);
    WhitespaceThen(s[2..], w1, "name", w2 + "}}" + t);
    WhitespaceThen(s[2 + |w1| + 4..], w2, "}}", t);
    SuffixOfSuffix(s, 2, |w1|);
    SuffixOfSuffix(s, 2 + |w1| + 4, |w2|);
    PlaceholderLengthIs(s, |w1|, |w2|);
  }

  /** The scan's result once both runs of whitespace are known. */
  lemma PlaceholderLengthIs(s: string, a: nat, b: nat)
    requires StartsWith(s, "{{") && 2 + a <= |s| && LeadingWhitespace(s[2..]) == a
    requires StartsWith(s[2 + a..], "name") && LeadingWhitespace(s[2 + a + 4..]) == b
    requires StartsWith(s[2 + a + 4 + b..], "}}")
    ensures PlaceholderLength(s) == Some(2 + a + 4 + b + 2)
  {
  }

  /** `template.replace(/{{\s*name\s*}}/g, alias)`, scanning left to right and
      resuming after each match. The match is case-sensitive. A match can
      only start at a `{`, so other characters are copied without trying
      one (`RenderScans` shows this is the plain scan). */
  function Render(template: string, alias: string): string
    decreases |template|
  {
    if template == [] then []
    else if template[0] != '{' then [template[0]] + Render(template[1..], alias)
    else match PlaceholderLength(template)
      case Some(n) => alias + Render(template[n..], alias)
      case None => [template[0]] + Render(template[1..], alias)
  }

  /** No match starts at a character other than `{`. */
  lemma NoPlaceholderAt(s: string)
    requires s != [] && s[0] != '{'
    ensures PlaceholderLength(s) == None
  {
    DiffersAt(s, "{{", 0);
  }

  /** The `{` shortcut in `Render` is harmless: `Render` equals the plain
      scan that tries a match at every position (a match is replaced by the
      alias and the scan resumes after it; otherwise the character is kept
      and the scan moves on by one). What a match is, and what replacing it
      gives, is stated by `PlaceholderLengthSound`/`Complete` and
      `RenderPlaceholder`/`RenderLiteral`. */
  lemma RenderScans(template: string, alias: string)
    ensures Render(template, alias)
         == if template == [] then []
            else match PlaceholderLength(template)
              case Some(n) => alias + Render(template[n..], alias)
              case None => [template[0]] + Render(template[1..], alias)
  {
    if template != [] && template[0] != '{' {
      NoPlaceholderAt(template);
    }
  }

  lemma {:induction false} RenderLiteral(text: string, rest: string, alias: string)
    requires '{' !in text
    ensures Render(text + rest, alias) == text + Render(rest, alias)
  {
    if text == [] {
      assert text + rest == rest;
    } else {
      ConsAppend(text, rest, Render(rest, alias));
      RenderLiteral(text[1..], rest, alias);
    }
  }

  /** Every placeholder, whatever whitespace it holds, becomes the alias. */
  lemma RenderPlaceholder(w1: string, w2: string, rest: string, alias: string)
    requires AllWhitespace(w1) && AllWhitespace(w2)
    ensures Render(Placeholder(w1, w2) + rest, alias) == alias + Render(rest, alias)
  {
    var p := Placeholder(w1, w2);
    var s := p + rest;
    assert s[..|p|] == p;
    PlaceholderLengthComplete(s, w1, w2);
    assert s[|p|..] == rest;
  }

  /** A template with one placeholder between plain text renders as that text
      around the alias. */
  lemma RenderOnePlaceholder(before: string, w1: string, w2: string, after: string, alias: string)
    requires '{' !in before && '{' !in after
    requires AllWhitespace(w1) && AllWhitespace(w2)
    ensures Render(before + Placeholder(w1, w2) + after, alias) == before + alias + after
  {
    var p := Placeholder(w1, w2);
    assert before + p + after == before + (p + after);
    RenderLiteral(before, p + after, alias);
    RenderPlaceholder(w1, w2, after, alias);
    RenderLiteral(after, [], alias);
    assert after + [] == after;
  }

  /** The greeting of the broadcast example. */
  lemma RenderGreeting(template: string, alias: string)
    requires template == "Hi {{name}}"
    ensures Render(template, alias) == "Hi " + alias
  {
    var before, none := "Hi ", "";
    assert AllWhitespace(none);
    assert template == before + Placeholder(none, none) + none;
    RenderOnePlaceholder(before, none, none, none, alias);
    assert before + alias + none == "Hi " + alias;
  }

  /** Whitespace inside the braces is tolerated. */
  lemma RenderSpacedPlaceholder(template: string, alias: string)
    requires template == "Hi {{ name }}!"
    ensures Render(template, alias) == "Hi " + alias + "!"
  {
    var before, w, after := "Hi ", " ", "!";
    assert AllWhitespace(w) by { assert w[0] == ' '; }
    assert template == before + Placeholder(w, w) + after;
    RenderOnePlaceholder(before, w, w, after, alias);
  }

  /** `{{` followed by a word other than `name` is not a placeholder and
      stays as written. */
  lemma RenderKeepsOtherWords(word: string, alias: string)
    requires '{' !in word && word != [] && !IsWhitespace(word[0])
    requires !StartsWith(word, "name")
    ensures Render("{{" + word, alias) == "{{" + word
  {
    var s := "{{" + word;
    assert s[2..] == word && s[..2] == "{{";
    LeadingWhitespaceIs(word, 0);
    assert PlaceholderLength(s) == None;
    var s1 := s[1..];
    assert s1 == "{" + word && s1[1] == word[0];
    DiffersAt(s1, "{{", 1);
    assert s1[1..] == word;
    RenderLiteral(word, [], alias);
    assert word + [] == word;
  }

  /** Matching is case-sensitive: `{{NAME}}` stays as written. */
  lemma RenderIsCaseSensitive(template: string, alias: string)
    requires template == "{{NAME}}"
    ensures Render(template, alias) == template
  {
    var word := "NAME}}";
    assert template == "{{" + word;
    assert word[0] == 'N';
    DiffersAt(word, "name", 0);
    RenderKeepsOtherWords(word, alias);
  }

  /* ---------- timestamp footer ---------- */

  const FooterLabel := "\n\nSENDED ON : "

  /** `enableTimeNotes ? `${text}\n\nSENDED ON : ${time}` : text`. */
  function WithFooter(text: string, enabled: bool, time: string): (r: string)
    ensures StartsWith(r, text)
    ensures enabled <==> |r| > |text|
    ensures enabled ==> r[|text|..] == FooterLabel + time
  {
    if enabled then text + FooterLabel + time else text
  }

  /** The message one recipient of a broadcast gets. */
  function Personalise(template: Option<string>, alias: string, timeNotes: Option<bool>, time: string): string {
    WithFooter(Render(template.GetOr(""), alias), timeNotes == Some(true), time)
  }

  /** The request `sendMass` hands to `send` for one recipient: the address
      as `to`, the personalised message, the same media. */
  function RecipientRequest(req: SendRequest, r: Recipient, time: string): (out: SendRequest)
    ensures out.sessionName == req.sessionName && out.to == r.address
    ensures out.message == Some(Personalise(req.message, r.alias, req.enableTimeNotes, time))
    ensures out.mediaBase64 == req.mediaBase64 && out.mediaMimeType == req.mediaMimeType
    ensures out.mediaFileName == req.mediaFileName && out.enableTimeNotes == None
  {
    SendRequest(req.sessionName, r.address, Some(Personalise(req.message, r.alias, req.enableTimeNotes, time)),
                req.mediaBase64, req.mediaMimeType, req.mediaFileName, None)
  }

  /* ---------- sequence identities ----------
     Stated apart so that the proofs above hand the solver only the fact
     they need. */

  lemma CommaAround(a: string, w: string, b: string)
    ensures a + "," + w + "," + b == a + "," + (w + "," + b)
  {
  }

  lemma FivePieces(s: string, i: nat, j: nat)
    requires 2 <= i && i + 4 <= j && j + 2 <= |s|
    ensures s[..j + 2] == s[..2] + s[2..i] + s[i..][..4] + s[i + 4..j] + s[j..][..2]
  {
  }
}
