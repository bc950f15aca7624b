/**
 * The record `log_command_output` builds for one command, and the CSV row
 * `_log_to_csv` writes for it. The clock is a parameter: the record's
 * timestamp is given, not read.
 */
module LogEntries {
  import opened Wrappers
  import opened PyStr
  import opened OrderFormat

  /** One logged command, with the keys of the JSON record. */
  datatype LogEntry = LogEntry(
    timestamp: string,
    commandType: string,
    userId: int,
    username: string,
    channelId: int,
    guildId: int,
    commandOutput: string,
    tipAmount: Option<string>,
    cardUsed: Option<string>,
    cardCvv: Option<string>,
    emailUsed: Option<string>,
    additionalData: map<string, string>)

  /** How many trailing characters of the card number are kept. */
  const MaskedDigits := 4

  /** The log record for one command. Only the last four characters of the
      card number are kept (all of it when it is shorter); the CVV is kept
      as it is; missing additional data becomes an empty mapping. */
  function BuildLogEntry(
    timestamp: string, commandType: string, userId: int, username: string,
    channelId: int, guildId: int, commandOutput: string, tipAmount: Option<string>,
    cardUsed: Option<Card>, emailUsed: Option<string>,
    additionalData: Option<map<string, string>>): (e: LogEntry)
    ensures e.cardUsed.Some? <==> cardUsed.Some?
    ensures e.cardCvv.Some? <==> cardUsed.Some?
    ensures cardUsed.Some? ==>
              var number := cardUsed.value.number;
              |e.cardUsed.value| == (if |number| < MaskedDigits then |number| else MaskedDigits) &&
              number == number[..|number| - |e.cardUsed.value|] + e.cardUsed.value &&
              e.cardCvv.value == cardUsed.value.cvv
    ensures additionalData.None? ==> e.additionalData == map[]
    ensures additionalData.Some? ==> e.additionalData == additionalData.value
    ensures e.timestamp == timestamp && e.commandType == commandType && e.userId == userId &&
            e.username == username && e.channelId == channelId && e.guildId == guildId &&
            e.commandOutput == commandOutput && e.tipAmount == tipAmount && e.emailUsed == emailUsed
  {
    LogEntry(
      timestamp, commandType, userId, username, channelId, guildId, commandOutput, tipAmount,
      if cardUsed.Some? then Some(LastChars(cardUsed.value.number, MaskedDigits)) else None,
      if cardUsed.Some? then Some(cardUsed.value.cvv) else None,
      emailUsed,
      additionalData.GetOr(map[]))
  }

  /** A card number longer than four characters never reaches the log:
      what is kept is exactly its last four characters. */
  lemma LongNumberIsMasked(
    timestamp: string, commandType: string, userId: int, username: string,
    channelId: int, guildId: int, commandOutput: string, tipAmount: Option<string>,
    card: Card, emailUsed: Option<string>, additionalData: Option<map<string, string>>)
    requires |card.number| > MaskedDigits
    ensures var e := BuildLogEntry(timestamp, commandType, userId, username, channelId, guildId,
                                   commandOutput, tipAmount, Some(card), emailUsed, additionalData);
            e.cardUsed.value != card.number &&
            e.cardUsed.value == card.number[|card.number| - MaskedDigits..]
  {
    var e := BuildLogEntry(timestamp, commandType, userId, username, channelId, guildId,
                           commandOutput, tipAmount, Some(card), emailUsed, additionalData);
    assert |e.cardUsed.value| == MaskedDigits;
  }

  // ---------------------------------------------------------------------------
  // The CSV log

  /** One cell of a CSV row: text, a number, or Python's `None`. */
  datatype Cell = Text(s: string) | Integer(n: int) | Null

  const CsvHeaders: seq<string> := [
    "timestamp", "command_type", "user_id", "username",
    "channel_id", "guild_id", "command_output", "tip_amount",
    "card_last4", "card_cvv", "email_used"]

  function OptionalText(o: Option<string>): Cell {
    if o.Some? then Text(o.value) else Null
  }

  /** `log_entry[key]` for the keys the CSV log uses. */
  function Field(e: LogEntry, key: string): Cell {
    if key == "timestamp" then Text(e.timestamp)
    else if key == "command_type" then Text(e.commandType)
    else if key == "user_id" then Integer(e.userId)
    else if key == "username" then Text(e.username)
    else if key == "channel_id" then Integer(e.channelId)
    else if key == "guild_id" then Integer(e.guildId)
    else if key == "command_output" then Text(e.commandOutput)
    else if key == "tip_amount" then OptionalText(e.tipAmount)
    else if key == "card_used" then OptionalText(e.cardUsed)
    else if key == "card_cvv" then OptionalText(e.cardCvv)
    else if key == "email_used" then OptionalText(e.emailUsed)
    else Null
  }

  /** The record key a CSV column is filled from: the column names are the
      record keys, except that the masked card goes under `card_last4`. */
  function KeyOfColumn(header: string): string {
    if header == "card_last4" then "card_used" else header
  }

  /** The row `_log_to_csv` writes for a record. */
  function CsvRow(e: LogEntry): (row: seq<Cell>)
    ensures |row| == |CsvHeaders|
    ensures forall i :: 0 <= i < |row| ==> row[i] == Field(e, KeyOfColumn(CsvHeaders[i]))
  {
    [Text(e.timestamp), Text(e.commandType), Integer(e.userId), Text(e.username),
     Integer(e.channelId), Integer(e.guildId), Text(e.commandOutput),
     OptionalText(e.tipAmount), OptionalText(e.cardUsed), OptionalText(e.cardCvv),
     OptionalText(e.emailUsed)]
  }
}
