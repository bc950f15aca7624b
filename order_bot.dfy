/**
 * The three order commands of the bot (`fusion_assist`, `fusion_order`,
 * `wool_order`): each checks the caller, looks for the order embed, takes a
 * card (and an email) from the pools, and replies with the formatted command.
 * The pools are modelled as sequences, oldest record first; taking a record
 * removes the head or reports an empty pool.
 */
module OrderBot {
  import opened Wrappers
  import opened PyStr
  import opened OrderFormat

  const NotAuthorized := "\U{274C} You are not authorized."
  const NoOrderEmbed := "\U{274C} Could not find order embed."
  const CardPoolEmpty := "\U{274C} Card pool is empty."
  const EmailPoolEmpty := "\U{274C} Email pool is empty."

  /** The card and email pools behind `get_and_remove_card` and
      `get_and_remove_email`. */
  class Pool {
    var cards: seq<Card>
    var emails: seq<string>

    constructor (cards: seq<Card>, emails: seq<string>)
      ensures this.cards == cards && this.emails == emails
    {
      this.cards := cards;
      this.emails := emails;
    }

    /** `get_and_remove_card`: the oldest card, removed from the pool, or
        `None` on an empty pool, which is then left as it was. */
    method TakeCard() returns (card: Option<Card>)
      modifies this`cards
      ensures old(cards) == [] ==> card == None && cards == old(cards)
      ensures old(cards) != [] ==> card == Some(old(cards)[0]) && cards == old(cards)[1..]
    {
      if cards == [] {
        card := None;
      } else {
        card := Some(cards[0]);
        cards := cards[1..];
      }
    }

    /** `get_and_remove_email`: the oldest email, removed from the pool, or
        `None` on an empty pool, which is then left as it was. */
    method TakeEmail() returns (email: Option<string>)
      modifies this`emails
      ensures old(emails) == [] ==> email == None && emails == old(emails)
      ensures old(emails) != [] ==> email == Some(old(emails)[0]) && emails == old(emails)[1..]
    {
      if emails == [] {
        email := None;
      } else {
        email := Some(emails[0]);
        emails := emails[1..];
      }
    }
  }

  /** The `parts` list the assist and order handlers build: the
      `order_details` part, then the override parts appended one by one. */
  method AssembleParts(base: string, info: OrderInfo) returns (parts: seq<string>)
    ensures parts == [base] + Overrides(info)
  {
    parts := [base];
    ghost var appended: seq<string> := [];
    if IsValidField(info.name) {
      var name := NormalizeName(info.name);
      Regroup([base], appended, [NamePrefix + name]);
      parts := parts + [NamePrefix + name];
      appended := appended + [NamePrefix + name];
    }
    assert appended == NameParts(info.name);
    if IsValidField(info.addr2) {
      Regroup([base], appended, [AptPrefix + info.addr2]);
      parts := parts + [AptPrefix + info.addr2];
      appended := appended + [AptPrefix + info.addr2];
    }
    assert appended == NameParts(info.name) + AptParts(info.addr2);
    var notes := Strip(info.notes);
    var notesParts := NotesPartsOf(notes);
    Regroup([base], appended, notesParts);
    parts := parts + notesParts;
    appended := appended + notesParts;
  }

  lemma Regroup(a: seq<string>, b: seq<string>, c: seq<string>)
    ensures (a + b) + c == a + (b + c)
  {
  }

  /** The notes and drop-off parts the handlers append for stripped notes. */
  method NotesPartsOf(notes: string) returns (extra: seq<string>)
    ensures extra == NotesParts(notes)
  {
    extra := [];
    if IsValidField(notes) {
      if Lower(notes) == "meet at door" {
        extra := extra + [MeetAtDoorPart];
      } else {
        var part := NotesPrefix + notes;
        extra := extra + [part];
        if Contains(Lower(notes), "leave") {
          extra := extra + [LeaveAtDoorPart];
        }
      }
    }
  }

  /** The reply of `fusion_assist` for a given embed and card. */
  function AssistReply(fields: seq<EmbedField>, card: Card): string {
    var info := ParseFields(fields);
    OrderReply(Join([AssistBase(info.link, card)] + Overrides(info)), info.tip)
  }

  /** The reply of `fusion_order` for a given embed, card and email. */
  function FusionOrderReply(fields: seq<EmbedField>, card: Card, email: string): string {
    var info := ParseFields(fields);
    OrderReply(Join([FusionOrderBase(info.link, card, email)] + Overrides(info)), info.tip)
  }

  /** The reply of `wool_order` for a given embed, card and email. */
  function WoolReply(fields: seq<EmbedField>, card: Card, email: string): string {
    var info := ParseFields(fields);
    OrderReply(WoolCommand(info.link, card, email), info.tip)
  }

  /** Reading the embed, building the parts and formatting the reply of
      `fusion_assist` once a card is in hand. */
  method FormatAssist(fields: seq<EmbedField>, card: Card) returns (reply: string)
    ensures reply == AssistReply(fields, card)
  {
    var info := ParseFields(fields);
    var parts := AssembleParts(AssistBase(info.link, card), info);
    var command := Join(parts);
    reply := OrderReply(command, info.tip);
  }

  /** The same for `fusion_order`, once a card and an email are in hand. */
  method FormatFusionOrder(fields: seq<EmbedField>, card: Card, email: string) returns (reply: string)
    ensures reply == FusionOrderReply(fields, card, email)
  {
    var info := ParseFields(fields);
    var parts := AssembleParts(FusionOrderBase(info.link, card, email), info);
    var command := Join(parts);
    reply := OrderReply(command, info.tip);
  }

  /** `fusion_assist`: a rejected caller, a missing embed or an empty card
      pool leave both pools as they were; otherwise exactly the oldest card
      is used up. The email pool is never touched. */
  method FusionAssist(db: Pool, userId: int, ownerId: int, embed: Option<seq<EmbedField>>)
    returns (reply: string)
    modifies db
    ensures db.emails == old(db.emails)
    ensures userId != ownerId ==> reply == NotAuthorized && db.cards == old(db.cards)
    ensures userId == ownerId && embed.None? ==> reply == NoOrderEmbed && db.cards == old(db.cards)
    ensures userId == ownerId && embed.Some? && old(db.cards) == [] ==>
              reply == CardPoolEmpty && db.cards == old(db.cards)
    ensures userId == ownerId && embed.Some? && old(db.cards) != [] ==>
              db.cards == old(db.cards)[1..] && reply == AssistReply(embed.value, old(db.cards)[0])
  {
    if userId != ownerId {
      return NotAuthorized;
    }
    if embed.None? {
      return NoOrderEmbed;
    }
    var card := db.TakeCard();
    if card.None? {
      return CardPoolEmpty;
    }
    assert card.value == old(db.cards)[0];
    reply := FormatAssist(embed.value, card.value);
  }

  /** `fusion_order`: a rejected caller, a missing embed or an empty card
      pool leave both pools as they were. A card is taken BEFORE the email
      pool is looked at, so when the email pool is empty the oldest card is
      used up all the same and the reply only reports the empty email pool.
      Otherwise exactly one card and one email are used up. */
  method FusionOrder(db: Pool, userId: int, ownerId: int, embed: Option<seq<EmbedField>>)
    returns (reply: string)
    modifies db
    ensures userId != ownerId ==>
              reply == NotAuthorized && db.cards == old(db.cards) && db.emails == old(db.emails)
    ensures userId == ownerId && embed.None? ==>
              reply == NoOrderEmbed && db.cards == old(db.cards) && db.emails == old(db.emails)
    ensures userId == ownerId && embed.Some? && old(db.cards) == [] ==>
              reply == CardPoolEmpty && db.cards == old(db.cards) && db.emails == old(db.emails)
    ensures userId == ownerId && embed.Some? && old(db.cards) != [] && old(db.emails) == [] ==>
              reply == EmailPoolEmpty && db.cards == old(db.cards)[1..] && db.emails == old(db.emails)
    ensures userId == ownerId && embed.Some? && old(db.cards) != [] && old(db.emails) != [] ==>
              db.cards == old(db.cards)[1..] && db.emails == old(db.emails)[1..] &&
              reply == FusionOrderReply(embed.value, old(db.cards)[0], old(db.emails)[0])
  {
    if userId != ownerId {
      return NotAuthorized;
    }
    if embed.None? {
      return NoOrderEmbed;
    }
    var card := db.TakeCard();
    if card.None? {
      return CardPoolEmpty;
    }
    var email := db.TakeEmail();
    if email.None? {
      return EmailPoolEmpty;
    }
    assert card.value == old(db.cards)[0] && email.value == old(db.emails)[0];
    reply := FormatFusionOrder(embed.value, card.value, email.value);
  }

  /** `wool_order`: the same gates and the same card-before-email order as
      `fusion_order`; its command is the single comma-separated line, with no
      override parts. */
  method WoolOrder(db: Pool, userId: int, ownerId: int, embed: Option<seq<EmbedField>>)
    returns (reply: string)
    modifies db
    ensures userId != ownerId ==>
              reply == NotAuthorized && db.cards == old(db.cards) && db.emails == old(db.emails)
    ensures userId == ownerId && embed.None? ==>
              reply == NoOrderEmbed && db.cards == old(db.cards) && db.emails == old(db.emails)
    ensures userId == ownerId && embed.Some? && old(db.cards) == [] ==>
              reply == CardPoolEmpty && db.cards == old(db.cards) && db.emails == old(db.emails)
    ensures userId == ownerId && embed.Some? && old(db.cards) != [] && old(db.emails) == [] ==>
              reply == EmailPoolEmpty && db.cards == old(db.cards)[1..] && db.emails == old(db.emails)
    ensures userId == ownerId && embed.Some? && old(db.cards) != [] && old(db.emails) != [] ==>
              db.cards == old(db.cards)[1..] && db.emails == old(db.emails)[1..] &&
              reply == WoolReply(embed.value, old(db.cards)[0], old(db.emails)[0])
  {
    if userId != ownerId {
      return NotAuthorized;
    }
    if embed.None? {
      return NoOrderEmbed;
    }
    var card := db.TakeCard();
    if card.None? {
      return CardPoolEmpty;
    }
    var email := db.TakeEmail();
    if email.None? {
      return EmailPoolEmpty;
    }
    assert card.value == old(db.cards)[0] && email.value == old(db.emails)[0];
    var info := ParseFields(embed.value);
    var command := WoolCommand(info.link, card.value, email.value);
    reply := OrderReply(command, info.tip);
  }
}
