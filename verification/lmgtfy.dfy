/** The LMGTFY message command (LMGTFYCommand in
    src/modules/general/LMGTFYModule.cs): three guards, then a search link
    built from the message's space-separated words. */
module Lmgtfy {
  import opened Wrappers
  import opened Guilds
  import opened Text

  const BaseUrl: string := "https://lmgt.org/?q="

  /** Members holding a role of this name may not use context commands. */
  const NoContextCommands: string := "No Context Commands"

  /** .NET's `char.IsWhiteSpace`: the Unicode space, line and paragraph
      separators, the controls U+0009 to U+000D, and U+0085. */
  predicate IsWhiteSpace(c: char) {
    || c == ' ' || ('\t' <= c <= '\r') || c == '\U{85}' || c == '\U{A0}' || c == '\U{1680}'
    || ('\U{2000}' <= c <= '\U{200A}') || c == '\U{2028}' || c == '\U{2029}'
    || c == '\U{202F}' || c == '\U{205F}' || c == '\U{3000}'
  }

  /** `string.IsNullOrWhiteSpace`. */
  predicate IsNullOrWhiteSpace(s: Option<string>) {
    s.None? || forall i :: 0 <= i < |s.value| ==> IsWhiteSpace(s.value[i])
  }

  /** The message the command was invoked on. */
  datatype Target = Target(authorIsBot: bool, authorIsWebhook: bool, isUserMessage: bool, content: Option<string>)

  /** What the command replies. */
  datatype Response = Prohibited | BotsKnowEverything | NothingToGoogle | Link(url: string)

  /** The search query: the words between spaces, empty ones dropped, joined
      with `+`. Only the space character separates words. */
  function Query(content: string): (q: string)
    ensures ' ' !in q
    ensures |q| == 0 <==> forall i :: 0 <= i < |content| ==> content[i] == ' '
    ensures '+' !in content && |q| > 0 ==>
      && q[0] != '+' && q[|q| - 1] != '+'
      && forall i :: 0 <= i < |q| - 1 ==> !(q[i] == '+' && q[i + 1] == '+')
    ensures '+' !in content ==> Without(q, '+') == Without(content, ' ')
    ensures '+' !in content ==> NonEmpty(SplitOn(q, '+')) == Words(content, ' ')
  {
    var ws := Words(content, ' ');
    var q := Join(ws, '+');
    QueryBasics(content, ws, q);
    QueryPlusFree(content, ws, q);
    q
  }

  /** The query never holds a space, and is empty exactly for all-space text. */
  lemma QueryBasics(content: string, ws: seq<string>, q: string)
    requires ws == Words(content, ' ') && q == Join(ws, '+')
    ensures ' ' !in q
    ensures |q| == 0 <==> forall i :: 0 <= i < |content| ==> content[i] == ' '
  {
    WordsNoSep(content, ' ');
    JoinChars(ws, '+', ' ');
    WordsEmptyIff(content, ' ');
    if |ws| > 0 {
      assert ws[0] != [];
      assert |q| > 0;
    }
  }

  /** For text without `+`, the query is the words joined by single `+`s:
      no stray `+`, the same characters, and the words come back on split. */
  lemma QueryPlusFree(content: string, ws: seq<string>, q: string)
    requires ws == Words(content, ' ') && q == Join(ws, '+')
    ensures '+' !in content && |q| > 0 ==>
      && q[0] != '+' && q[|q| - 1] != '+'
      && forall i :: 0 <= i < |q| - 1 ==> !(q[i] == '+' && q[i + 1] == '+')
    ensures '+' !in content ==> Without(q, '+') == Without(content, ' ')
    ensures '+' !in content ==> NonEmpty(SplitOn(q, '+')) == ws
  {
    if '+' !in content {
      WordsAvoid(content, ' ', '+');
      QueryShape(ws, q);
      QueryChars(content, ws, q);
      QueryRoundTrip(ws, q);
    }
  }

  /** Joining non-empty `+`-free words with `+` leaves no stray `+`. */
  lemma QueryShape(ws: seq<string>, q: string)
    requires q == Join(ws, '+')
    requires forall i :: 0 <= i < |ws| ==> ws[i] != [] && '+' !in ws[i]
    ensures |q| > 0 ==>
      && q[0] != '+' && q[|q| - 1] != '+'
      && forall i :: 0 <= i < |q| - 1 ==> !(q[i] == '+' && q[i + 1] == '+')
  {
    if |ws| > 0 {
      JoinShape(ws, '+');
    }
  }

  /** The query holds the text's characters other than spaces, in order. */
  lemma QueryChars(content: string, ws: seq<string>, q: string)
    requires ws == Words(content, ' ') && q == Join(ws, '+')
    requires forall i :: 0 <= i < |ws| ==> '+' !in ws[i]
    ensures Without(q, '+') == Without(content, ' ')
  {
    WordsKeepContent(content, ' ');
    JoinWithout(ws, '+');
  }

  /** Splitting the query on `+` and dropping empty pieces gives the words. */
  lemma QueryRoundTrip(ws: seq<string>, q: string)
    requires q == Join(ws, '+')
    requires forall i :: 0 <= i < |ws| ==> ws[i] != [] && '+' !in ws[i]
    ensures NonEmpty(SplitOn(q, '+')) == ws
  {
    if |ws| > 0 {
      SplitJoin(ws, '+');
      NonEmptyKeeps(ws);
    } else {
      assert SplitOn(q, '+') == [""];
      assert NonEmpty([""]) == NonEmpty([""][1..]);
    }
  }

  /** The command's reply. The role check comes first, then the author check,
      then the content check; only a message that passes all three gets a
      link, and that link always carries a non-empty query. */
  function Respond(guildRoles: seq<Role>, invokerRoles: Option<set<RoleId>>, m: Target): (r: Response)
    ensures var blocked := FirstRoleNamed(guildRoles, NoContextCommands);
      && (r == Prohibited <==> blocked.Some? && invokerRoles.Some? && blocked.value in invokerRoles.value)
      && (r == BotsKnowEverything <==> r != Prohibited && (m.authorIsBot || m.authorIsWebhook))
      && (r.Link? <==> r != Prohibited && !m.authorIsBot && !m.authorIsWebhook && m.isUserMessage
                       && m.content.Some? && exists i :: 0 <= i < |m.content.value| && !IsWhiteSpace(m.content.value[i]))
    ensures r.Link? ==> |r.url| > |BaseUrl| && r.url == BaseUrl + Query(m.content.value)
  {
    var blocked := FirstRoleNamed(guildRoles, NoContextCommands);
    if blocked.Some? && invokerRoles.Some? && blocked.value in invokerRoles.value then Prohibited
    else if m.authorIsBot || m.authorIsWebhook then BotsKnowEverything
    else if !m.isUserMessage || IsNullOrWhiteSpace(m.content) then NothingToGoogle
    else
      var content := m.content.value;
      assert exists i :: 0 <= i < |content| && content[i] != ' ';
      Link(BaseUrl + Query(content))
  }
}
