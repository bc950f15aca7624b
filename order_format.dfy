/**
 * The pure part of the order bot: reading the order embed's fields,
 * normalising the customer name, deciding which fields are usable, and the
 * text of the command the bot formats (the `order_details:` part followed by
 * the `override_*` parts).
 */
module OrderFormat {
  import opened Wrappers
  import opened PyStr

  // ---------------------------------------------------------------------------
  // Constants of the formatted command

  const ExpMonth := "05"
  const ExpYear := "30"
  const ZipCode := "19104"

  const NamePrefix := "override_name:"
  const AptPrefix := "override_aptorsuite:"
  const NotesPrefix := "override_notes:"
  const MeetAtDoorPart := "override_dropoff:Meet at Door"
  const LeaveAtDoorPart := "override_dropoff:Leave at Door"

  /** A card as the pool hands it out: `(number, cvv)`. */
  datatype Card = Card(number: string, cvv: string)

  // ---------------------------------------------------------------------------
  // The order embed

  /** One field of the order embed: its title and its text. */
  datatype EmbedField = EmbedField(name: string, value: string)

  const LinkKey := "Group Cart Link"
  const NameKey := "Name"
  const Addr2Key := "Address Line 2"
  const NotesKey := "Delivery Notes"
  const TipKey := "Tip Amount"

  predicate HasField(fields: seq<EmbedField>, key: string) {
    exists i :: 0 <= i < |fields| && fields[i].name == key
  }

  /** `{field.name: field.value for field in embed.fields}`: every title maps
      to the text of the LAST field carrying that title. */
  function FieldMap(fields: seq<EmbedField>): map<string, string> {
    if fields == [] then map[]
    else
      var last := fields[|fields| - 1];
      FieldMap(fields[..|fields| - 1])[last.name := last.value]
  }

  /** The field at position `i` is the last one titled `key`. */
  predicate LastWithTitle(fields: seq<EmbedField>, key: string, i: int) {
    0 <= i < |fields| && fields[i].name == key &&
    forall j :: i < j < |fields| ==> fields[j].name != key
  }

  /** The dictionary has exactly the field titles as keys, each mapped to the
      text of the last field with that title. */
  lemma {:induction false} FieldMapSpec(fields: seq<EmbedField>)
    ensures forall key :: key in FieldMap(fields) <==> HasField(fields, key)
    ensures forall key :: key in FieldMap(fields) ==>
              exists i :: LastWithTitle(fields, key, i) && fields[i].value == FieldMap(fields)[key]
    decreases |fields|
  {
    if fields != [] {
      var n := |fields| - 1;
      var init := fields[..n];
      var last := fields[n];
      FieldMapSpec(init);
      assert FieldMap(fields) == FieldMap(init)[last.name := last.value];
      assert forall j :: 0 <= j < n ==> init[j] == fields[j];
      forall key | HasField(fields, key) ensures key in FieldMap(fields) {
        var i :| 0 <= i < |fields| && fields[i].name == key;
        if i < n { assert HasField(init, key); }
      }
      forall key | key in FieldMap(fields)
        ensures exists i :: LastWithTitle(fields, key, i) && fields[i].value == FieldMap(fields)[key]
      {
        if key == last.name {
          assert LastWithTitle(fields, key, n);
        } else {
          assert key in FieldMap(init) && FieldMap(init)[key] == FieldMap(fields)[key];
          var i :| LastWithTitle(init, key, i) && init[i].value == FieldMap(init)[key];
          assert LastWithTitle(fields, key, i);
        }
      }
    }
  }

  /** The fields the handlers use, as `parse_fields` returns them. */
  datatype OrderInfo = OrderInfo(link: Option<string>, name: string, addr2: string, notes: string, tip: string)

  predicate Trimmed(s: string) {
    s == [] || (!IsSpace(s[0]) && !IsSpace(s[|s| - 1]))
  }

  /** `parse_fields`: the cart link as given (or `None`), the other four
      stripped of surrounding whitespace and `''` when the field is missing;
      a present field is read from the last field carrying its title. */
  function ParseFields(fields: seq<EmbedField>): (info: OrderInfo)
    ensures info.link.None? <==> !HasField(fields, LinkKey)
    ensures info.link.Some? ==> exists i :: LastWithTitle(fields, LinkKey, i) && fields[i].value == info.link.value
    ensures Trimmed(info.name) && Trimmed(info.addr2) && Trimmed(info.notes) && Trimmed(info.tip)
    ensures StrippedField(fields, NameKey, info.name)
    ensures StrippedField(fields, Addr2Key, info.addr2)
    ensures StrippedField(fields, NotesKey, info.notes)
    ensures StrippedField(fields, TipKey, info.tip)
  {
    var data := FieldMap(fields);
    FieldMapSpec(fields);
    var name := FieldText(fields, NameKey);
    var addr2 := FieldText(fields, Addr2Key);
    var notes := FieldText(fields, NotesKey);
    var tip := FieldText(fields, TipKey);
    OrderInfo(if LinkKey in data then Some(data[LinkKey]) else None, name, addr2, notes, tip)
  }

  /** `v` is what `parse_fields` must give for the title `key`: `''` when no
      field has that title, otherwise the stripped text of the last field
      that has it. */
  ghost predicate StrippedField(fields: seq<EmbedField>, key: string, v: string) {
    (!HasField(fields, key) ==> v == "") &&
    (HasField(fields, key) ==> exists i :: LastWithTitle(fields, key, i) && v == Strip(fields[i].value))
  }

  /** `data.get(key, '').strip()`. */
  function FieldText(fields: seq<EmbedField>, key: string): (v: string)
    ensures Trimmed(v)
    ensures StrippedField(fields, key, v)
  {
    var data := FieldMap(fields);
    FieldMapSpec(fields);
    var raw := if key in data then data[key] else "";
    StripTrimmed(raw);
    Strip(raw)
  }

  /** Only one field can be the last with a given title. */
  lemma LastWithTitleUnique(fields: seq<EmbedField>, key: string, i: int, j: int)
    requires LastWithTitle(fields, key, i) && LastWithTitle(fields, key, j)
    ensures i == j
  {
  }

  /** With a repeated title, the parsed value is the stripped text of the
      LAST field carrying it, for each of the four stripped fields. */
  lemma ParseFieldsLastWins(fields: seq<EmbedField>, key: string, i: nat)
    requires LastWithTitle(fields, key, i)
    ensures key == NameKey ==> ParseFields(fields).name == Strip(fields[i].value)
    ensures key == Addr2Key ==> ParseFields(fields).addr2 == Strip(fields[i].value)
    ensures key == NotesKey ==> ParseFields(fields).notes == Strip(fields[i].value)
    ensures key == TipKey ==> ParseFields(fields).tip == Strip(fields[i].value)
  {
    var info := ParseFields(fields);
    assert HasField(fields, key);
    var v := if key == NameKey then info.name else if key == Addr2Key then info.addr2
             else if key == NotesKey then info.notes else info.tip;
    if key in {NameKey, Addr2Key, NotesKey, TipKey} {
      assert StrippedField(fields, key, v);
      var i' :| LastWithTitle(fields, key, i') && v == Strip(fields[i'].value);
      LastWithTitleUnique(fields, key, i, i');
    }
  }

  // ---------------------------------------------------------------------------
  // normalize_name

  /** `normalize_name`: drop the commas, then keep the first two words joined
      by one space; a single word is followed by its own first letter; a name
      with no word left becomes `''`. */
  function NormalizeName(name: string): string {
    var parts := Words(Strip(RemoveAll(name, ',')));
    if |parts| >= 2 then parts[0] + " " + parts[1]
    else if |parts| == 1 then parts[0] + " " + [parts[0][0]]
    else ""
  }

  predicate SpaceOrComma(c: char) {
    IsSpace(c) || c == ','
  }

  lemma {:induction false} RemoveAllAllSpace(s: string)
    ensures AllSpace(RemoveAll(s, ',')) <==> forall k :: 0 <= k < |s| ==> SpaceOrComma(s[k])
    decreases |s|
  {
    if s != [] {
      var rest := s[1..];
      RemoveAllAllSpace(rest);
      var h: string := if s[0] == ',' then [] else [s[0]];
      assert RemoveAll(s, ',') == h + RemoveAll(rest, ',');
      AllSpaceAppend(h, RemoveAll(rest, ','));
      assert AllSpace(h) <==> SpaceOrComma(s[0]);
      assert forall k :: 1 <= k < |s| ==> s[k] == rest[k - 1];
      assert (forall k :: 0 <= k < |s| ==> SpaceOrComma(s[k])) <==>
             SpaceOrComma(s[0]) && (forall k :: 0 <= k < |rest| ==> SpaceOrComma(rest[k]));
    }
  }

  /** What `normalize_name` returns, in terms of the words of the comma-free
      name: the first two joined by one space; or the only word, a space and
      its first letter (that word is then all the non-blank text of the
      name); or `''` exactly when the name holds nothing but whitespace and
      commas. */
  lemma NormalizeNameCases(name: string)
    ensures var ws := Words(RemoveAll(name, ','));
            && (|ws| >= 2 ==> NormalizeName(name) == ws[0] + " " + ws[1])
            && (|ws| == 1 ==> NormalizeName(name) == ws[0] + " " + [ws[0][0]]
                               && ws[0] == NonSpace(RemoveAll(name, ',')))
            && (NormalizeName(name) == "" <==> ws == [])
            && (ws == [] <==> forall k :: 0 <= k < |name| ==> SpaceOrComma(name[k]))
  {
    var cleaned := RemoveAll(name, ',');
    var ws := Words(cleaned);
    WordsIgnoreStrip(cleaned);
    WordsEmptyIffAllSpace(cleaned);
    RemoveAllAllSpace(name);
    if |ws| == 1 {
      WordsKeepEveryOtherChar(cleaned);
      assert Concat(ws) == ws[0] + Concat(ws[1..]);
    }
  }

  /** `normalize_name` never leaves a comma in its result. */
  lemma NormalizeNameHasNoComma(name: string)
    ensures ',' !in NormalizeName(name)
  {
    var cleaned := Strip(RemoveAll(name, ','));
    var ws := Words(cleaned);
    RemoveAllSpec(name, ',');
    StripKeepsOut(RemoveAll(name, ','), ',');
    WordsKeepOut(cleaned, ',');
    var r := NormalizeName(name);
    if |ws| >= 2 {
      assert r == ws[0] + " " + ws[1];
      assert forall c :: c in r ==> c in ws[0] || c == ' ' || c in ws[1];
    } else if |ws| == 1 {
      assert r == ws[0] + " " + [ws[0][0]];
      assert forall c :: c in r ==> c in ws[0] || c == ' ';
    }
  }

  /** A character absent from `s` is absent from `s.strip()`. */
  lemma StripKeepsOut(s: string, c: char)
    requires c !in s
    ensures c !in Strip(s)
  {
    StripIsSlice(s);
    var i := StripStart(s);
    forall k | 0 <= k < |Strip(s)| ensures Strip(s)[k] != c {
      assert Strip(s)[k] == s[i + k];
    }
  }

  /** A character absent from `s` is absent from every word of `s.split()`. */
  lemma WordsKeepOut(s: string, c: char)
    requires c !in s
    ensures forall i :: 0 <= i < |Words(s)| ==> c !in Words(s)[i]
  {
    forall i, k | 0 <= i < |Words(s)| && 0 <= k < |Words(s)[i]| ensures Words(s)[i][k] != c {
      WordsCharsFromInput(s, i, k);
    }
  }

  // ---------------------------------------------------------------------------
  // is_valid_field

  /** `is_valid_field`: non-empty, and not `n/a` or `none` once stripped and
      lower-cased. */
  predicate IsValidField(value: string) {
    value != "" && Lower(Strip(value)) != "n/a" && Lower(Strip(value)) != "none"
  }

  /** `t` spells `n/a` in any mix of upper and lower case. */
  predicate SpellsNA(t: string) {
    |t| == 3 && (t[0] == 'n' || t[0] == 'N') && t[1] == '/' && (t[2] == 'a' || t[2] == 'A')
  }

  /** `t` spells `none` in any mix of upper and lower case. */
  predicate SpellsNone(t: string) {
    |t| == 4 && (t[0] == 'n' || t[0] == 'N') && (t[1] == 'o' || t[1] == 'O') &&
    (t[2] == 'n' || t[2] == 'N') && (t[3] == 'e' || t[3] == 'E')
  }

  lemma LowerIsNA(t: string)
    ensures Lower(t) == "n/a" <==> SpellsNA(t)
  {
    if |t| == 3 {
      LowerChars(t);
      assert Lower(t) == [LowerChar(t[0]), LowerChar(t[1]), LowerChar(t[2])];
    }
  }

  lemma LowerIsNone(t: string)
    ensures Lower(t) == "none" <==> SpellsNone(t)
  {
    if |t| == 4 {
      LowerChars(t);
      assert Lower(t) == [LowerChar(t[0]), LowerChar(t[1]), LowerChar(t[2]), LowerChar(t[3])];
    }
  }

  /** A field is unusable exactly when it is empty or, apart from surrounding
      whitespace, spells `n/a` or `none` in any case; a whitespace-only value
      therefore counts as usable. */
  lemma IsValidFieldExactly(value: string)
    ensures IsValidField(value) <==>
              value != "" && !SpellsNA(Strip(value)) && !SpellsNone(Strip(value))
    ensures value != "" && AllSpace(value) ==> IsValidField(value)
  {
    LowerIsNA(Strip(value));
    LowerIsNone(Strip(value));
    StripEmptyIffAllSpace(value);
  }

  // ---------------------------------------------------------------------------
  // The parts of the formatted command

  /** How the cart link is printed inside `order_details`: an f-string renders
      a missing link as `None`. */
  function LinkText(link: Option<string>): string {
    match link
    case Some(l) => l
    case None => "None"
  }

  /** The comma-separated values of `/assist order order_details:` (fusion_assist). */
  function AssistValues(link: Option<string>, card: Card): seq<string> {
    [LinkText(link), card.number, ExpMonth, ExpYear, card.cvv, ZipCode]
  }

  /** The comma-separated values of `/order uber order_details:` (fusion_order). */
  function FusionOrderValues(link: Option<string>, card: Card, email: string): seq<string> {
    [LinkText(link), card.number, ExpMonth, ExpYear, card.cvv, ZipCode, email]
  }

  /** The comma-separated values of the wool command: expiry written `MM/YY`. */
  function WoolValues(link: Option<string>, card: Card, email: string): seq<string> {
    [LinkText(link), card.number, ExpMonth + "/" + ExpYear, card.cvv, ZipCode, email]
  }

  function AssistBase(link: Option<string>, card: Card): string {
    "/assist order order_details:" + JoinWith(AssistValues(link, card), ',')
  }

  function FusionOrderBase(link: Option<string>, card: Card, email: string): string {
    "/order uber order_details:" + JoinWith(FusionOrderValues(link, card, email), ',')
  }

  function WoolCommand(link: Option<string>, card: Card, email: string): string {
    JoinWith(WoolValues(link, card, email), ',')
  }

  predicate CommaFree(s: string) {
    ',' !in s
  }

  /** When link, card and email hold no comma, the `order_details` text splits
      back on commas into exactly link, number, expiry, cvv, zip code (and
      email), in that order. */
  lemma OrderDetailsRoundTrip(link: Option<string>, card: Card, email: string)
    requires CommaFree(LinkText(link)) && CommaFree(card.number) && CommaFree(card.cvv) && CommaFree(email)
    ensures SplitOn(AssistBase(link, card)[|"/assist order order_details:"|..], ',') == AssistValues(link, card)
    ensures SplitOn(FusionOrderBase(link, card, email)[|"/order uber order_details:"|..], ',')
              == FusionOrderValues(link, card, email)
    ensures SplitOn(WoolCommand(link, card, email), ',') == WoolValues(link, card, email)
  {
    var a := AssistValues(link, card);
    var f := FusionOrderValues(link, card, email);
    var w := WoolValues(link, card, email);
    assert forall i :: 0 <= i < |a| ==> ',' !in a[i];
    assert forall i :: 0 <= i < |f| ==> ',' !in f[i];
    assert ',' !in ExpMonth + "/" + ExpYear;
    assert forall i :: 0 <= i < |w| ==> ',' !in w[i];
    SplitOnJoinWith(a, ',');
    SplitOnJoinWith(f, ',');
    SplitOnJoinWith(w, ',');
  }

  /** The `override_dropoff` / `override_notes` parts for (stripped) delivery notes. */
  function NotesParts(notes: string): seq<string> {
    if !IsValidField(notes) then []
    else if Lower(notes) == "meet at door" then [MeetAtDoorPart]
    else [NotesPrefix + notes] + (if Contains(Lower(notes), "leave") then [LeaveAtDoorPart] else [])
  }

  /** The `override_name` part for a raw name. */
  function NameParts(name: string): seq<string> {
    if IsValidField(name) then [NamePrefix + NormalizeName(name)] else []
  }

  /** The `override_aptorsuite` part for the second address line. */
  function AptParts(addr2: string): seq<string> {
    if IsValidField(addr2) then [AptPrefix + addr2] else []
  }

  /** The `override_*` parts, in the order the handlers append them. */
  function Overrides(info: OrderInfo): seq<string> {
    NameParts(info.name) + AptParts(info.addr2) + NotesParts(Strip(info.notes))
  }

  /** The reply text: the command in a code block, then the tip line. */
  function OrderReply(command: string, tip: string): string {
    "```" + command + "```\n" + "Tip: $" + tip
  }

  // ---------------------------------------------------------------------------
  // Properties of the parts

  /** Which part a string is, by its leading text; the rank gives the order
      the handlers append them in. */
  function Rank(part: string): nat {
    if StartsWith(part, NamePrefix) then 1
    else if StartsWith(part, AptPrefix) then 2
    else if StartsWith(part, NotesPrefix) then 3
    else if StartsWith(part, "override_dropoff:") then 4
    else 0
  }

  lemma RankOfName(rest: string)
    ensures Rank(NamePrefix + rest) == 1
  {
    assert (NamePrefix + rest)[..|NamePrefix|] == NamePrefix;
  }

  lemma RankOfApt(rest: string)
    ensures Rank(AptPrefix + rest) == 2
  {
    var s := AptPrefix + rest;
    assert s[..|AptPrefix|] == AptPrefix;
    assert s[..|NamePrefix|][9] == 'a';
  }

  lemma RankOfNotes(rest: string)
    ensures Rank(NotesPrefix + rest) == 3
  {
    var s := NotesPrefix + rest;
    assert s[..|NotesPrefix|] == NotesPrefix;
    assert s[..|NamePrefix|][10] == 'o';
    assert !StartsWith(s, AptPrefix) by {
      assert |s| >= |AptPrefix| ==> s[..|AptPrefix|][9] == 'n';
    }
  }

  lemma RankOfDropoff()
    ensures Rank(MeetAtDoorPart) == 4 && Rank(LeaveAtDoorPart) == 4
  {
    assert MeetAtDoorPart[..|NamePrefix|][9] == 'd';
    assert MeetAtDoorPart[..|AptPrefix|][9] == 'd';
    assert MeetAtDoorPart[..|NotesPrefix|][9] == 'd';
    assert MeetAtDoorPart[..17] == "override_dropoff:";
    assert LeaveAtDoorPart[..|NamePrefix|][9] == 'd';
    assert LeaveAtDoorPart[..|AptPrefix|][9] == 'd';
    assert LeaveAtDoorPart[..|NotesPrefix|][9] == 'd';
    assert LeaveAtDoorPart[..17] == "override_dropoff:";
  }

  /** Ranks strictly increase along `parts`, all within `lo..hi`. */
  predicate RanksIncreaseWithin(parts: seq<string>, lo: nat, hi: nat) {
    && (forall i :: 0 <= i < |parts| ==> lo <= Rank(parts[i]) <= hi)
    && (forall i, j :: 0 <= i < j < |parts| ==> Rank(parts[i]) < Rank(parts[j]))
  }

  lemma ConcatRanks(a: seq<string>, b: seq<string>, lo: nat, mid: nat, hi: nat)
    requires lo <= mid <= hi
    requires RanksIncreaseWithin(a, lo, mid) && RanksIncreaseWithin(b, mid + 1, hi)
    ensures RanksIncreaseWithin(a + b, lo, hi)
  {
    var ab := a + b;
    forall i | 0 <= i < |ab| ensures lo <= Rank(ab[i]) <= hi {
      if i < |a| { assert ab[i] == a[i]; } else { assert ab[i] == b[i - |a|]; }
    }
    forall i, j | 0 <= i < j < |ab| ensures Rank(ab[i]) < Rank(ab[j]) {
      if j < |a| {
        assert ab[i] == a[i] && ab[j] == a[j];
      } else if i >= |a| {
        assert ab[i] == b[i - |a|] && ab[j] == b[j - |a|];
      } else {
        assert ab[i] == a[i] && ab[j] == b[j - |a|];
      }
    }
  }

  lemma NamePartsRanks(name: string)
    ensures RanksIncreaseWithin(NameParts(name), 1, 1)
  {
    if IsValidField(name) {
      RankOfName(NormalizeName(name));
      assert NameParts(name) == [NamePrefix + NormalizeName(name)];
    } else {
      assert NameParts(name) == [];
    }
  }

  lemma AptPartsRanks(addr2: string)
    ensures RanksIncreaseWithin(AptParts(addr2), 2, 2)
  {
    if IsValidField(addr2) {
      RankOfApt(addr2);
      assert AptParts(addr2) == [AptPrefix + addr2];
    } else {
      assert AptParts(addr2) == [];
    }
  }

  lemma NotesPartsRanks(notes: string)
    ensures RanksIncreaseWithin(NotesParts(notes), 3, 4)
    ensures |NotesParts(notes)| <= 2
  {
    var ps := NotesParts(notes);
    if !IsValidField(notes) {
      assert ps == [];
    } else if Lower(notes) == "meet at door" {
      RankOfDropoff();
      assert ps == [MeetAtDoorPart];
    } else if Contains(Lower(notes), "leave") {
      RankOfNotes(notes);
      RankOfDropoff();
      assert ps == [NotesPrefix + notes, LeaveAtDoorPart];
    } else {
      RankOfNotes(notes);
      assert ps == [NotesPrefix + notes];
    }
  }

  /** The override parts always come in the order name, apt/suite,
      notes, drop-off (their ranks strictly increase along the list), there
      are at most four of them, and none can be mistaken for the leading
      `order_details` part (whose rank is 0). */
  lemma OverridesOrdered(info: OrderInfo)
    ensures RanksIncreaseWithin(Overrides(info), 1, 4)
    ensures |Overrides(info)| <= 4
  {
    var a := NameParts(info.name);
    var b := AptParts(info.addr2);
    var c := NotesParts(Strip(info.notes));
    NamePartsRanks(info.name);
    AptPartsRanks(info.addr2);
    NotesPartsRanks(Strip(info.notes));
    ConcatRanks(a, b, 1, 1, 2);
    ConcatRanks(a + b, c, 1, 2, 4);
  }

  /** The whole parts list of `fusion_assist` and `fusion_order`: the
      `order_details` part first, then the override parts in order. */
  lemma CommandPartsOrdered(info: OrderInfo, link: Option<string>, card: Card, email: string)
    ensures RanksIncreaseWithin([AssistBase(link, card)] + Overrides(info), 0, 4)
    ensures RanksIncreaseWithin([FusionOrderBase(link, card, email)] + Overrides(info), 0, 4)
  {
    var rest := Overrides(info);
    BasesRankZero(link, card, email);
    OverridesOrdered(info);
    LeadingPart(AssistBase(link, card), rest);
    LeadingPart(FusionOrderBase(link, card, email), rest);
  }

  lemma LeadingPart(base: string, rest: seq<string>)
    requires Rank(base) == 0 && RanksIncreaseWithin(rest, 1, 4)
    ensures RanksIncreaseWithin([base] + rest, 0, 4)
  {
    ConcatRanks([base], rest, 0, 0, 4);
  }

  /** The leading `order_details` part of either handler has no override
      rank, so it cannot be taken for an override part. */
  lemma BasesRankZero(link: Option<string>, card: Card, email: string)
    ensures Rank(AssistBase(link, card)) == 0
    ensures Rank(FusionOrderBase(link, card, email)) == 0
  {
    var a := JoinWith(AssistValues(link, card), ',');
    var f := JoinWith(FusionOrderValues(link, card, email), ',');
    assert ("/assist order order_details:" + a)[0] == '/';
    assert ("/order uber order_details:" + f)[0] == '/';
    RankOfCommand("/assist order order_details:" + a);
    RankOfCommand("/order uber order_details:" + f);
  }

  lemma RankOfCommand(s: string)
    requires |s| > 0 && s[0] == '/'
    ensures Rank(s) == 0
  {
    assert !StartsWith(s, NamePrefix) by { assert |s| >= |NamePrefix| ==> s[..|NamePrefix|][0] == '/'; }
    assert !StartsWith(s, AptPrefix) by { assert |s| >= |AptPrefix| ==> s[..|AptPrefix|][0] == '/'; }
    assert !StartsWith(s, NotesPrefix) by { assert |s| >= |NotesPrefix| ==> s[..|NotesPrefix|][0] == '/'; }
    assert !StartsWith(s, "override_dropoff:") by { assert |s| >= 17 ==> s[..17][0] == '/'; }
  }

  /** Distinct part texts: a notes part is never a drop-off part. */
  lemma NotesPartsDistinct(notes: string)
    ensures MeetAtDoorPart != NotesPrefix + notes && LeaveAtDoorPart != NotesPrefix + notes
    ensures MeetAtDoorPart != LeaveAtDoorPart
  {
    var t := NotesPrefix + notes;
    assert t[9] == 'n';
    assert MeetAtDoorPart[17] != LeaveAtDoorPart[17];
  }

  /** Delivery notes that read `meet at door` in any case give the
      Meet-at-Door drop-off and nothing else; no other notes give it. */
  lemma MeetAtDoorRule(notes: string)
    ensures MeetAtDoorPart in NotesParts(notes) <==>
              IsValidField(notes) && Lower(notes) == "meet at door"
    ensures MeetAtDoorPart in NotesParts(notes) ==> NotesParts(notes) == [MeetAtDoorPart]
  {
    var ps := NotesParts(notes);
    var t := NotesPrefix + notes;
    NotesPartsDistinct(notes);
    if !IsValidField(notes) {
      assert ps == [];
    } else if Lower(notes) == "meet at door" {
      assert ps == [MeetAtDoorPart];
    } else if Contains(Lower(notes), "leave") {
      assert ps == [t, LeaveAtDoorPart];
    } else {
      assert ps == [t];
    }
  }

  /** Any other usable notes give exactly one notes part, first, carrying the
      notes as written; unusable or `meet at door` notes give none. */
  lemma NotesPartRule(notes: string)
    ensures (exists i :: 0 <= i < |NotesParts(notes)| && Rank(NotesParts(notes)[i]) == 3) <==>
              IsValidField(notes) && Lower(notes) != "meet at door"
    ensures IsValidField(notes) && Lower(notes) != "meet at door" ==>
              NotesParts(notes)[0] == NotesPrefix + notes
  {
    var ps := NotesParts(notes);
    var t := NotesPrefix + notes;
    RankOfNotes(notes);
    RankOfDropoff();
    if !IsValidField(notes) {
      assert ps == [];
    } else if Lower(notes) == "meet at door" {
      assert ps == [MeetAtDoorPart];
    } else if Contains(Lower(notes), "leave") {
      assert ps == [t, LeaveAtDoorPart];
      assert Rank(ps[0]) == 3;
    } else {
      assert ps == [t];
      assert Rank(ps[0]) == 3;
    }
  }

  /** The Leave-at-Door drop-off follows the notes part exactly when the
      notes are usable, are not `meet at door`, and mention `leave` in any
      case. */
  lemma LeaveAtDoorRule(notes: string)
    ensures LeaveAtDoorPart in NotesParts(notes) <==>
              IsValidField(notes) && Lower(notes) != "meet at door" && Contains(Lower(notes), "leave")
    ensures LeaveAtDoorPart in NotesParts(notes) ==> NotesParts(notes) == [NotesPrefix + notes, LeaveAtDoorPart]
  {
    var ps := NotesParts(notes);
    var t := NotesPrefix + notes;
    NotesPartsDistinct(notes);
    if !IsValidField(notes) {
      assert ps == [];
    } else if Lower(notes) == "meet at door" {
      assert ps == [MeetAtDoorPart];
    } else if Contains(Lower(notes), "leave") {
      assert ps == [t, LeaveAtDoorPart];
    } else {
      assert ps == [t];
    }
  }

  /** A name part is present exactly when the name is usable: then it comes
      first and carries the normalised name; otherwise every part ranks
      after it. */
  lemma NameRule(info: OrderInfo)
    ensures IsValidField(info.name) ==> Overrides(info)[0] == NamePrefix + NormalizeName(info.name)
    ensures !IsValidField(info.name) ==> RanksIncreaseWithin(Overrides(info), 2, 4)
  {
    var b := AptParts(info.addr2);
    var c := NotesParts(Strip(info.notes));
    if IsValidField(info.name) {
      assert Overrides(info)[0] == NamePrefix + NormalizeName(info.name);
    } else {
      AptPartsRanks(info.addr2);
      NotesPartsRanks(Strip(info.notes));
      ConcatRanks(b, c, 2, 2, 4);
      assert Overrides(info) == b + c by {
        assert NameParts(info.name) == [];
      }
    }
  }

  lemma SkipRankTwo(a: seq<string>, c: seq<string>)
    requires RanksIncreaseWithin(a, 1, 1) && RanksIncreaseWithin(c, 3, 4)
    ensures forall i :: 0 <= i < |a + c| ==> Rank((a + c)[i]) != 2
  {
    forall i | 0 <= i < |a + c| ensures Rank((a + c)[i]) != 2 {
      if i < |a| { assert (a + c)[i] == a[i]; } else { assert (a + c)[i] == c[i - |a|]; }
    }
  }

  lemma InMiddle(a: seq<string>, p: string, c: seq<string>)
    ensures p in a + [p] + c
  {
    assert (a + [p] + c)[|a|] == p;
  }

  /** An apartment/suite part is present when that field is usable, and
      it carries the field as given ... */
  lemma AptPresentRule(info: OrderInfo)
    ensures IsValidField(info.addr2) ==> AptPrefix + info.addr2 in Overrides(info)
  {
    if IsValidField(info.addr2) {
      var a := NameParts(info.name);
      var c := NotesParts(Strip(info.notes));
      var p := AptPrefix + info.addr2;
      assert AptParts(info.addr2) == [p];
      assert Overrides(info) == a + [p] + c;
      InMiddle(a, p, c);
    }
  }

  /** ... and otherwise no part has the apartment/suite rank. */
  lemma AptAbsentRule(info: OrderInfo)
    ensures !IsValidField(info.addr2) ==> forall i :: 0 <= i < |Overrides(info)| ==> Rank(Overrides(info)[i]) != 2
  {
    if !IsValidField(info.addr2) {
      var a := NameParts(info.name);
      var c := NotesParts(Strip(info.notes));
      NamePartsRanks(info.name);
      NotesPartsRanks(Strip(info.notes));
      assert Overrides(info) == a + c by {
        assert AptParts(info.addr2) == [];
      }
      SkipRankTwo(a, c);
    }
  }
}
