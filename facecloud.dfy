/** The message extraction of `getMessageText` and `_getDivText` (facecloud.py), with the
    HTML parser replaced by its results: the text of the participants div, the text of the
    `<title>` element, and, for every message container, the texts of the divs that follow
    the container in document order. */
module FaceCloud {
  import opened Wrappers
  import opened PyStr

  // ---------------------------------------------------------------------------------------
  // Participant names
  // ---------------------------------------------------------------------------------------

  /** The fixed first group of the participants pattern `(Participants:)(.*)`. */
  const ParticipantsPrefix: string := "Participants:"

  /** The list of participants as text. `re.match` anchors the pattern at the start of the
      participants div: when it matches, the list is group 2, which runs up to (not including)
      the first newline, because `.` does not match one. Otherwise the list is the title. */
  function NameList(participantText: string, title: string): (list: string)
    ensures OccursAt(participantText, ParticipantsPrefix, 0) ==>
      var rest := participantText[|ParticipantsPrefix|..];
      |list| <= |rest| && list == rest[..|list|] && '\n' !in list
      && (|list| < |rest| ==> rest[|list|] == '\n')
    ensures !OccursAt(participantText, ParticipantsPrefix, 0) ==> list == title
  {
    if OccursAt(participantText, ParticipantsPrefix, 0) then
      var rest := participantText[|ParticipantsPrefix|..];
      rest[..IndexOf(rest, '\n')]
    else title
  }

  /** The first name kept for one piece of the list: `piece.strip().split(' ')[0]`. It is a
      slice of the piece, holds no space, and is empty or starts with a non-blank character. */
  function FirstName(piece: string): (name: string)
    ensures Contains(piece, name)
    ensures ' ' !in name
    ensures name == [] || !IsSpace(name[0])
  {
    var stripped := Strip(piece);
    var name := FirstPiece(stripped, ' ');
    assert OccursAt(stripped, name, 0);
    ContainsTransitive(piece, stripped, name);
    name
  }

  /** The first names of the participants: the list split with `re.split(",|and", ...)`,
      then one name per piece. */
  function DeriveNames(participantText: string, title: string): (names: seq<string>)
    ensures |names| == |SplitCommaAnd(NameList(participantText, title))|
    ensures forall i :: 0 <= i < |names| ==>
      Contains(SplitCommaAnd(NameList(participantText, title))[i], names[i])
    ensures forall i :: 0 <= i < |names| ==>
      ' ' !in names[i] && ',' !in names[i] && !Contains(names[i], "and")
  {
    var pieces := SplitCommaAnd(NameList(participantText, title));
    var names := seq(|pieces|, i requires 0 <= i < |pieces| => FirstName(pieces[i]));
    assert forall i :: 0 <= i < |names| ==> names[i] == FirstName(pieces[i]);
    forall i | 0 <= i < |names|
      ensures ',' !in names[i] && !Contains(names[i], "and")
    {
      FirstNameKeepsOut(pieces[i]);
    }
    names
  }

  /** A first name holds no character or substring its piece does not hold. */
  lemma FirstNameKeepsOut(piece: string)
    ensures ',' !in piece ==> ',' !in FirstName(piece)
    ensures !Contains(piece, "and") ==> !Contains(FirstName(piece), "and")
  {
    var name := FirstName(piece);
    if ',' in name {
      ContainsChar(piece, name, ',');
    }
    if Contains(name, "and") {
      ContainsTransitive(piece, name, "and");
    }
  }

  /** A participants div whose text is the prefix and a one-line list gives that list. */
  lemma NameListOf(list: string, title: string)
    requires '\n' !in list
    ensures NameList(ParticipantsPrefix + list, title) == list
  {
    var text := ParticipantsPrefix + list;
    assert text[..|ParticipantsPrefix|] == ParticipantsPrefix;
    assert text[|ParticipantsPrefix|..] == list;
  }

  /** The first name of a piece is the run of non-space characters that starts at the first
      non-blank character `piece[i]` and ends at the next space, or at the last non-blank
      character `piece[j - 1]`, whichever comes first. */
  lemma FirstNameIs(piece: string, i: nat, n: nat, j: nat)
    requires i < j <= |piece| && !IsSpace(piece[i]) && !IsSpace(piece[j - 1])
    requires forall k :: 0 <= k < i ==> IsSpace(piece[k])
    requires forall k :: j <= k < |piece| ==> IsSpace(piece[k])
    requires i + n <= j && (forall k :: i <= k < i + n ==> piece[k] != ' ')
    requires i + n < j ==> piece[i + n] == ' '
    ensures FirstName(piece) == piece[i..i + n]
  {
    StripIs(piece, i, j);
    var stripped := piece[i..j];
    forall k | 0 <= k < n
      ensures stripped[..n][k] == piece[i..i + n][k] && stripped[..n][k] != ' '
    {
      assert stripped[k] == piece[i + k];
    }
    assert stripped[..n] == piece[i..i + n];
    assert ' ' !in stripped[..n];
    assert n < |stripped| ==> stripped[n] == piece[i + n];
    FirstPieceIs(stripped, ' ', n);
  }

  /** A three-way group chat gives three first names.
      (The pieces are parameters fixed by `requires`, so that the verifier reasons about them
      step by step rather than unfolding every function on the literals.) */
  lemma ParticipantsExample(a1: string, a2: string, a3: string, title: string)
    requires a1 == " Annie Saxberg" && a2 == " Keziah Milligan " && a3 == " Susanna Hotham"
    ensures DeriveNames(ParticipantsPrefix + a1 + "," + a2 + "and" + a3, title)
      == ["Annie", "Keziah", "Susanna"]
  {
    var list := a1 + ("," + (a2 + ("and" + a3)));
    assert ParticipantsPrefix + a1 + "," + a2 + "and" + a3 == ParticipantsPrefix + list;
    ExamplePieces(a1, a2, a3);
    OneLinePiece(a1);
    OneLinePiece(a2);
    OneLinePiece(a3);
    OneLineList(a1, a2, a3);
    AnnieExample(a1);
    KeziahExample(a2);
    SusannaExample(a3);
    ThreeNames(list, title, a1, a2, a3);
  }

  /** A one-line list that splits into three pieces gives the first names of those pieces. */
  lemma ThreeNames(list: string, title: string, a1: string, a2: string, a3: string)
    requires '\n' !in list && SplitCommaAnd(list) == [a1, a2, a3]
    ensures DeriveNames(ParticipantsPrefix + list, title) == [FirstName(a1), FirstName(a2), FirstName(a3)]
  {
    var text := ParticipantsPrefix + list;
    NameListOf(list, title);
    NamesOfPieces(text, title);
    var names, pieces := DeriveNames(text, title), SplitCommaAnd(NameList(text, title));
    assert pieces == [a1, a2, a3];
    assert |names| == 3;
    assert names[0] == FirstName(pieces[0]) && pieces[0] == a1;
    assert names[1] == FirstName(pieces[1]) && pieces[1] == a2;
    assert names[2] == FirstName(pieces[2]) && pieces[2] == a3;
    SeqOfThree(names);
  }

  /** Each participant of the example fits on one line. */
  lemma OneLinePiece(piece: string)
    requires piece == " Annie Saxberg" || piece == " Keziah Milligan " || piece == " Susanna Hotham"
    ensures '\n' !in piece
  {
  }

  /** Pieces on one line joined by `,` and `and` give a list on one line. */
  lemma OneLineList(a1: string, a2: string, a3: string)
    requires '\n' !in a1 && '\n' !in a2 && '\n' !in a3
    ensures '\n' !in a1 + ("," + (a2 + ("and" + a3)))
  {
  }

  lemma SeqOfThree<T>(s: seq<T>)
    requires |s| == 3
    ensures s == [s[0], s[1], s[2]]
  {
  }

  /** Name `i` is the first name of piece `i`. */
  lemma NamesOfPieces(participantText: string, title: string)
    ensures var pieces := SplitCommaAnd(NameList(participantText, title));
      var names := DeriveNames(participantText, title);
      |names| == |pieces| && forall i :: 0 <= i < |pieces| ==> names[i] == FirstName(pieces[i])
  {
  }

  /** The first names of the three pieces of the example. */
  lemma AnnieExample(piece: string)
    requires piece == " Annie Saxberg"
    ensures FirstName(piece) == "Annie"
  {
    FirstNameIs(piece, 1, 5, |piece|);
  }

  lemma KeziahExample(piece: string)
    requires piece == " Keziah Milligan "
    ensures FirstName(piece) == "Keziah"
  {
    FirstNameIs(piece, 1, 6, |piece| - 1);
  }

  lemma SusannaExample(piece: string)
    requires piece == " Susanna Hotham"
    ensures FirstName(piece) == "Susanna"
  {
    FirstNameIs(piece, 1, 7, |piece|);
  }

  /** The example list splits at its comma and at its `and`. */
  lemma ExamplePieces(a1: string, a2: string, a3: string)
    requires a1 == " Annie Saxberg" && a2 == " Keziah Milligan " && a3 == " Susanna Hotham"
    ensures SplitCommaAnd(a1 + ("," + (a2 + ("and" + a3)))) == [a1, a2, a3]
  {
    PlainExample(a3, "");
    PlainExample(a2, "and" + a3);
    PlainExample(a1, "," + (a2 + ("and" + a3)));
    SplitThree(a1, ",", a2, "and", a3);
  }

  /** Three pieces joined by two separators, none of which starts inside a piece. */
  lemma SplitThree(a1: string, s1: string, a2: string, s2: string, a3: string)
    requires (s1 == "," || s1 == "and") && (s2 == "," || s2 == "and")
    requires PlainPrefix(a3 + "", |a3|)
    requires PlainPrefix(a2 + (s2 + a3), |a2|)
    requires PlainPrefix(a1 + (s1 + (a2 + (s2 + a3))), |a1|)
    ensures SplitCommaAnd(a1 + (s1 + (a2 + (s2 + a3)))) == [a1, a2, a3]
  {
    assert a3 + "" == a3;
    SplitCommaAndWhole(a3);
    SplitCommaAndPieces(a2, s2, a3);
    SplitCommaAndPieces(a1, s1, a2 + (s2 + a3));
  }

  /** Neither a comma nor `and` starts inside the piece `a` of `a + rest`. */
  lemma PlainExample(a: string, rest: string)
    requires a == " Annie Saxberg" || a == " Keziah Milligan " || a == " Susanna Hotham"
    requires rest == "" || rest[0] == ',' || (|rest| >= 3 && rest[..3] == "and")
    ensures PlainPrefix(a + rest, |a|)
  {
    var s := a + rest;
    forall p | 0 <= p < |a| && p < |s|
      ensures s[p] != ',' && !OccursAt(s, "and", p)
    {
      assert s[p] == a[p];
      if p + 3 <= |s| {
        assert s[p..p + 3][0] == s[p];
        assert s[p..p + 3][1] == s[p + 1];
        assert s[p..p + 3][2] == s[p + 2];
        if p + 3 <= |a| {
          assert s[p + 1] == a[p + 1] && s[p + 2] == a[p + 2];
        }
      }
    }
  }

  // ---------------------------------------------------------------------------------------
  // Notification filter
  // ---------------------------------------------------------------------------------------

  /** The alternatives of the article and object groups of the notification pattern. */
  const Articles: seq<string> := ["a", "an"]
  const Kinds: seq<string> := ["photo", "sticker", "attachment", "GIF", "link"]

  /** The subjects the pattern's first group accepts: `You` and every derived name. */
  function Subjects(names: seq<string>): seq<string> {
    ["You"] + names
  }

  /** One literal string that the notification pattern matches. */
  function Phrase(who: string, article: string, kind: string): string {
    who + " sent " + article + " " + kind
  }

  /** `ignMsg.search(msg)` finds a match: for names without regex metacharacters the pattern
      `(You|n1|...) (sent) (a|an) (photo|sticker|attachment|GIF|link)` matches at some index
      exactly when one of its literal expansions occurs there. */
  ghost predicate IsNotification(msg: string, names: seq<string>) {
    exists who, article, kind ::
      who in Subjects(names) && article in Articles && kind in Kinds
      && Contains(msg, Phrase(who, article, kind))
  }

  /** Searches `msg` for `prefix + kind` for each alternative `kind` in turn. */
  function SearchKinds(msg: string, prefix: string, kinds: seq<string>): (found: bool)
    ensures found <==> exists kind :: kind in kinds && Contains(msg, prefix + kind)
  {
    if kinds == [] then false
    else Search(msg, prefix + kinds[0]) || SearchKinds(msg, prefix, kinds[1..])
  }

  /** Searches `msg` for the pattern with its first group fixed to `who`, for each
      alternative `article` in turn. */
  function SearchArticles(msg: string, who: string, articles: seq<string>): (found: bool)
    ensures found <==> exists article, kind ::
      article in articles && kind in Kinds && Contains(msg, Phrase(who, article, kind))
  {
    if articles == [] then false
    else
      var prefix := who + " sent " + articles[0] + " ";
      assert forall kind :: Phrase(who, articles[0], kind) == prefix + kind;
      SearchKinds(msg, prefix, Kinds) || SearchArticles(msg, who, articles[1..])
  }

  /** Searches `msg` for the pattern, for each alternative `who` of its first group in turn. */
  function SearchSubjects(msg: string, subjects: seq<string>): (found: bool)
    ensures found <==> exists who, article, kind ::
      who in subjects && article in Articles && kind in Kinds
      && Contains(msg, Phrase(who, article, kind))
  {
    if subjects == [] then false
    else SearchArticles(msg, subjects[0], Articles) || SearchSubjects(msg, subjects[1..])
  }

  /** The filter decision of the extraction loop: the message is a media or link notification. */
  function IsIgnored(msg: string, names: seq<string>): (ignored: bool)
    ensures ignored <==> IsNotification(msg, names)
  {
    SearchSubjects(msg, Subjects(names))
  }

  /** Every expansion of the pattern holds ` sent a` right after its subject. */
  lemma PhraseHasSentA(who: string, article: string, kind: string)
    requires article in Articles
    ensures OccursAt(Phrase(who, article, kind), " sent a", |who|)
  {
    var ph := Phrase(who, article, kind);
    assert ph == who + " sent " + article + " " + kind;
    assert ph[|who|..|who| + 6] == " sent ";
    assert ph[|who| + 6] == article[0] == 'a';
    assert ph[|who|..|who| + 7] == ph[|who|..|who| + 6] + [ph[|who| + 6]];
  }

  /** A message in which ` sent a` does not occur is never a notification. */
  lemma WithoutSentAIsKept(msg: string, names: seq<string>)
    requires !Contains(msg, " sent a")
    ensures !IsNotification(msg, names)
  {
    forall who, article, kind |
      who in Subjects(names) && article in Articles && kind in Kinds
      ensures !Contains(msg, Phrase(who, article, kind))
    {
      PhraseHasSentA(who, article, kind);
      if Contains(msg, Phrase(who, article, kind)) {
        ContainsTransitive(msg, Phrase(who, article, kind), " sent a");
      }
    }
  }

  /** A participant's photo is dropped; a message that only talks about sending is kept. */
  lemma NotificationExamples()
    ensures IsNotification("Jane sent a photo.", ["Jane"])
    ensures !IsNotification("Jane sent the documents.", ["Jane"])
  {
    assert OccursAt("Jane sent a photo.", Phrase("Jane", "a", "photo"), 0);
    assert "Jane" in Subjects(["Jane"]) && "a" in Articles && "photo" in Kinds;
    var kept := "Jane sent the documents.";
    forall p: nat
      ensures !OccursAt(kept, " sent a", p)
    {
      if p + 7 <= |kept| {
        assert kept[p..p + 7][0] == kept[p];
        assert kept[p..p + 7][6] == kept[p + 6];
      }
    }
    WithoutSentAIsKept(kept, ["Jane"]);
  }

  // ---------------------------------------------------------------------------------------
  // Cleaning
  // ---------------------------------------------------------------------------------------

  /** The denylist of substrings deleted from kept messages. */
  const IgnoredWords: seq<string> := ["https"]

  /** `re.sub(word, '', text)` applied for each word of `words` in turn. */
  function RemoveWords(text: string, words: seq<string>): string
    requires forall i :: 0 <= i < |words| ==> words[i] != []
  {
    if words == [] then text
    else RemoveAll(RemoveWords(text, words[..|words| - 1]), words[|words| - 1])
  }

  /** A kept message with the denylisted words removed: every occurrence of `https` found
      scanning from the left is deleted, so the message shrinks by five characters per
      occurrence removed, and a message without `https` is unchanged. */
  function Clean(msg: string): (cleaned: string)
    ensures |cleaned| + 5 * MatchCount(msg, "https") == |msg|
    ensures cleaned == msg <==> !Contains(msg, "https")
  {
    assert IgnoredWords[..0] == [] && IgnoredWords[0] == "https";
    assert RemoveWords(msg, IgnoredWords[..0]) == msg;
    var cleaned := RemoveWords(msg, IgnoredWords);
    assert cleaned == RemoveAll(msg, "https");
    RemoveAllUnchangedIff(msg, "https");
    cleaned
  }

  // ---------------------------------------------------------------------------------------
  // Message text of one container
  // ---------------------------------------------------------------------------------------

  /** The index of the first non-empty text in `following` at or after `k`. */
  function FirstTextFrom(following: seq<string>, k: nat): (i: Option<nat>)
    ensures i.Some? ==>
      k <= i.value < |following| && following[i.value] != ""
      && forall j :: k <= j < i.value ==> following[j] == ""
    ensures i.None? ==> forall j :: k <= j < |following| ==> following[j] == ""
    decreases |following| - k
  {
    if k >= |following| then None
    else if following[k] != "" then Some(k)
    else FirstTextFrom(following, k + 1)
  }

  /** What `_getDivText` returns for a container whose following divs have the texts
      `following`: the first div is skipped, as it holds the whole message with its reactions;
      the text of the first later div with text is the message. `None` when every later div is
      empty: the traversal then reaches `None` and raises. */
  function MessageDiv(following: seq<string>): Option<string> {
    match FirstTextFrom(following, 1)
    case None => None
    case Some(i) => Some(following[i])
  }

  /** The message text exists exactly when some div after the first has text, and then it is
      the text of the first such div. */
  lemma MessageDivIsFirstText(following: seq<string>)
    ensures MessageDiv(following).Some? <==> exists i :: 1 <= i < |following| && following[i] != ""
    ensures MessageDiv(following).Some? ==>
      var text := MessageDiv(following).value;
      text != "" && exists i ::
        1 <= i < |following| && following[i] == text
        && forall j :: 1 <= j < i ==> following[j] == ""
  {
    match FirstTextFrom(following, 1)
    case None =>
    case Some(i) => assert 1 <= i < |following| && following[i] != "";
  }

  /** `_getDivText`: walks forward from the second following div to the first with text. */
  method DivText(following: seq<string>) returns (text: Option<string>)
    ensures text == MessageDiv(following)
  {
    var m := 1;
    while m < |following| && following[m] == ""
      invariant 1 <= m
      invariant FirstTextFrom(following, m) == FirstTextFrom(following, 1)
      decreases |following| - m
    {
      m := m + 1;
    }
    if m < |following| {
      text := Some(following[m]);
    } else {
      text := None;
    }
  }

  // ---------------------------------------------------------------------------------------
  // Aggregation
  // ---------------------------------------------------------------------------------------

  /** What one message adds to the text: nothing for a notification, otherwise a newline and
      the cleaned message. */
  function Contribution(msg: string, names: seq<string>): string {
    if IsIgnored(msg, names) then "" else "\n" + Clean(msg)
  }

  /** The text the loop `text += add(m)` builds over `msgs`, starting from the empty text. */
  function Accumulate(msgs: seq<string>, add: string -> string): string {
    if msgs == [] then ""
    else Accumulate(msgs[..|msgs| - 1], add) + add(msgs[|msgs| - 1])
  }

  /** The text accumulated from the messages `msgs` in order. */
  function Aggregate(msgs: seq<string>, names: seq<string>): string {
    Accumulate(msgs, m => Contribution(m, names))
  }

  /** The fold over two runs of messages is the two folds one after the other. */
  lemma {:induction false} AccumulateAppend(a: seq<string>, b: seq<string>, add: string -> string)
    ensures Accumulate(a + b, add) == Accumulate(a, add) + Accumulate(b, add)
    decreases |b|
  {
    if b == [] {
      assert a + b == a;
    } else {
      var b', last := b[..|b| - 1], b[|b| - 1];
      var ab := a + b;
      AccumulateAppend(a, b', add);
      assert ab[..|ab| - 1] == a + b';
      assert ab[|ab| - 1] == last;
      var x, y, z := Accumulate(a, add), Accumulate(b', add), add(last);
      assert Accumulate(b, add) == y + z;
      assert Accumulate(ab, add) == (x + y) + z;
      assert (x + y) + z == x + (y + z);
    }
  }

  /** The same fold, seen from the first message. */
  lemma AccumulateCons(msgs: seq<string>, add: string -> string)
    requires msgs != []
    ensures Accumulate(msgs, add) == add(msgs[0]) + Accumulate(msgs[1..], add)
  {
    var head, tail := [msgs[0]], msgs[1..];
    assert head[..0] == [];
    assert Accumulate(head, add) == add(msgs[0]);
    AccumulateAppend(head, tail, add);
    assert head + tail == msgs;
  }

  /** Aggregating two runs of messages one after the other gives the two texts one after the
      other. */
  lemma AggregateAppend(a: seq<string>, b: seq<string>, names: seq<string>)
    ensures Aggregate(a + b, names) == Aggregate(a, names) + Aggregate(b, names)
  {
    AccumulateAppend(a, b, m => Contribution(m, names));
  }

  /** The messages that pass the notification filter, in their original order. */
  function Kept(msgs: seq<string>, names: seq<string>): (kept: seq<string>)
    ensures forall m :: m in kept ==> m in msgs && !IsNotification(m, names)
    ensures forall m :: m in msgs && !IsNotification(m, names) ==> m in kept
  {
    if msgs == [] then []
    else (if IsIgnored(msgs[0], names) then [] else [msgs[0]]) + Kept(msgs[1..], names)
  }

  /** The number of notifications among `msgs`. */
  function NotificationCount(msgs: seq<string>, names: seq<string>): nat {
    if msgs == [] then 0
    else (if IsIgnored(msgs[0], names) then 1 else 0) + NotificationCount(msgs[1..], names)
  }

  /** Each message cleaned and put after a newline, concatenated in order. */
  function Lines(msgs: seq<string>): string {
    if msgs == [] then "" else "\n" + Clean(msgs[0]) + Lines(msgs[1..])
  }

  /** The accumulated text is exactly the kept messages, cleaned, each after a newline, in
      their original order; notifications contribute nothing. */
  lemma {:induction false} AggregateIsKeptLines(msgs: seq<string>, names: seq<string>)
    ensures Aggregate(msgs, names) == Lines(Kept(msgs, names))
    decreases |msgs|
  {
    if msgs != [] {
      var head, tail := msgs[0], msgs[1..];
      AggregateIsKeptLines(tail, names);
      AccumulateCons(msgs, m => Contribution(m, names));
      assert Aggregate(msgs, names) == Contribution(head, names) + Aggregate(tail, names);
      if IsIgnored(head, names) {
        assert Kept(msgs, names) == Kept(tail, names);
      } else {
        var rest := Kept(tail, names);
        assert Kept(msgs, names) == [head] + rest;
        assert ([head] + rest)[1..] == rest;
      }
    }
  }

  /** Of `N` messages of which `M` are notifications, `N - M` reach the text. */
  lemma {:induction false} KeptCount(msgs: seq<string>, names: seq<string>)
    ensures |Kept(msgs, names)| + NotificationCount(msgs, names) == |msgs|
    decreases |msgs|
  {
    if msgs != [] {
      KeptCount(msgs[1..], names);
    }
  }

  /** No messages, or only notifications, give the empty text. */
  lemma {:induction false} AggregateOfNotifications(msgs: seq<string>, names: seq<string>)
    requires forall i :: 0 <= i < |msgs| ==> IsNotification(msgs[i], names)
    ensures Aggregate(msgs, names) == ""
    decreases |msgs|
  {
    if msgs != [] {
      AggregateOfNotifications(msgs[1..], names);
      AccumulateCons(msgs, m => Contribution(m, names));
    }
  }

  /** The failure of the extraction: the container at this index has no later div with text. */
  datatype ExtractError = NoMessageText(container: nat)

  /** The message texts of all containers, when every one of them has one. */
  function Texts(containers: seq<seq<string>>): (texts: seq<string>)
    requires forall i :: 0 <= i < |containers| ==> MessageDiv(containers[i]).Some?
    ensures |texts| == |containers|
    ensures forall i :: 0 <= i < |containers| ==> MessageDiv(containers[i]) == Some(texts[i])
  {
    seq(|containers|, i requires 0 <= i < |containers| => MessageDiv(containers[i]).value)
  }

  /** One more container extends the texts by its message text. */
  lemma TextsSnoc(containers: seq<seq<string>>, i: nat)
    requires i < |containers|
    requires forall j :: 0 <= j <= i ==> MessageDiv(containers[j]).Some?
    ensures Texts(containers[..i + 1])
      == Texts(containers[..i]) + [MessageDiv(containers[i]).value]
  {
    var longer, shorter := Texts(containers[..i + 1]), Texts(containers[..i]);
    forall j | 0 <= j < i
      ensures longer[j] == shorter[j]
    {
      assert containers[..i + 1][j] == containers[..i][j];
    }
    assert containers[..i + 1][i] == containers[i];
  }

  /** One more message extends the text by what that message contributes. */
  lemma AggregateSnoc(msgs: seq<string>, msg: string, names: seq<string>)
    ensures Aggregate(msgs + [msg], names) == Aggregate(msgs, names) + Contribution(msg, names)
  {
    var add := m => Contribution(m, names);
    AccumulateAppend(msgs, [msg], add);
    assert [msg][..0] == [];
  }

  /** Removing one more word of the list removes it from the text the earlier words left. */
  lemma RemoveWordsStep(text: string, words: seq<string>, w: nat)
    requires w < |words| && forall i :: 0 <= i < |words| ==> words[i] != []
    ensures RemoveWords(text, words[..w + 1]) == RemoveAll(RemoveWords(text, words[..w]), words[w])
  {
    assert words[..w + 1][..w] == words[..w];
  }

  /** The inner loop of `getMessageText`: `re.sub(word, '', msg)` for each ignored word. */
  method RemoveIgnoredWords(msg: string) returns (cleaned: string)
    ensures cleaned == Clean(msg)
  {
    cleaned := msg;
    for w := 0 to |IgnoredWords|
      invariant cleaned == RemoveWords(msg, IgnoredWords[..w])
    {
      RemoveWordsStep(msg, IgnoredWords, w);
      cleaned := RemoveAll(cleaned, IgnoredWords[w]);
    }
    assert IgnoredWords[..|IgnoredWords|] == IgnoredWords;
  }

  /** One step of the loop when the message is a notification. */
  lemma AggregateSkips(msgs: seq<string>, msg: string, names: seq<string>)
    requires IsIgnored(msg, names)
    ensures Aggregate(msgs + [msg], names) == Aggregate(msgs, names)
  {
    AggregateSnoc(msgs, msg, names);
  }

  /** One step of the loop when the message is kept, with every ignored word removed. */
  lemma AggregateKeeps(msgs: seq<string>, msg: string, names: seq<string>, cleaned: string)
    requires !IsIgnored(msg, names) && cleaned == Clean(msg)
    ensures Aggregate(msgs + [msg], names) == Aggregate(msgs, names) + "\n" + cleaned
  {
    AggregateSnoc(msgs, msg, names);
  }

  /** The loop of `getMessageText` over the message containers, for the derived `names`:
      takes each container's message text in order, drops notifications, cleans the rest and
      appends each after a newline. It fails at the first container that has no message
      text. */
  method CollectText(containers: seq<seq<string>>, names: seq<string>)
    returns (r: Result<string, ExtractError>)
    ensures r.Success? <==> forall i :: 0 <= i < |containers| ==> MessageDiv(containers[i]).Some?
    ensures r.Success? ==> r.value == Aggregate(Texts(containers), names)
    ensures r.Failure? ==>
      var k := r.error.container;
      k < |containers| && MessageDiv(containers[k]).None?
      && forall j :: 0 <= j < k ==> MessageDiv(containers[j]).Some?
  {
    var text := "";
    for i := 0 to |containers|
      invariant forall j :: 0 <= j < i ==> MessageDiv(containers[j]).Some?
      invariant text == Aggregate(Texts(containers[..i]), names)
    {
      var msgText := DivText(containers[i]);
      if msgText.None? {
        return Failure(NoMessageText(i));
      }
      var msg := msgText.value;
      TextsSnoc(containers, i);
      ghost var before := Texts(containers[..i]);
      if IsIgnored(msg, names) {
        AggregateSkips(before, msg, names);
      } else {
        ghost var original := msg;
        msg := RemoveIgnoredWords(msg);
        AggregateKeeps(before, original, names, msg);
        text := text + "\n" + msg;
      }
    }
    assert containers[..|containers|] == containers;
    return Success(text);
  }

  /** `getMessageText`: derives the participants' first names, then collects the text of the
      message containers with them. */
  method GetMessageText(participantText: string, title: string, containers: seq<seq<string>>)
    returns (r: Result<string, ExtractError>)
    ensures r.Success? <==> forall i :: 0 <= i < |containers| ==> MessageDiv(containers[i]).Some?
    ensures r.Success? ==>
      r.value == Aggregate(Texts(containers), DeriveNames(participantText, title))
    ensures r.Failure? ==>
      var k := r.error.container;
      k < |containers| && MessageDiv(containers[k]).None?
      && forall j :: 0 <= j < k ==> MessageDiv(containers[j]).Some?
  {
    var names := DeriveNames(participantText, title);
    r := CollectText(containers, names);
  }

  /** A notification among the messages leaves the text as if it were absent, and a link
      loses its `https`. */
  lemma AggregateExample(m1: string, m2: string)
    requires m1 == "Jane sent a photo." && m2 == "see https://x"
    ensures Aggregate([m1, m2], ["Jane"]) == "\nsee ://x"
  {
    var names := ["Jane"];
    AggregateSnoc([], m1, names);
    AggregateSnoc([m1], m2, names);
    assert [] + [m1] == [m1] && [m1] + [m2] == [m1, m2];
    IgnoredExample(m1, names);
    KeptExample(m2, names);
  }

  /** A participant's photo adds nothing. */
  lemma IgnoredExample(msg: string, names: seq<string>)
    requires msg == "Jane sent a photo." && names == ["Jane"]
    ensures Contribution(msg, names) == ""
  {
    NotificationExamples();
  }

  /** A message with a link is kept, without its `https`. */
  lemma KeptExample(msg: string, names: seq<string>)
    requires msg == "see https://x" && names == ["Jane"]
    ensures Contribution(msg, names) == "\nsee ://x"
  {
    CleanExample(msg, "see ", "://x");
    NoSentAExample(msg);
    WithoutSentAIsKept(msg, names);
  }

  /** ` sent a` does not occur in the example link message. */
  lemma NoSentAExample(msg: string)
    requires msg == "see https://x"
    ensures !Contains(msg, " sent a")
  {
    forall p: nat
      ensures !OccursAt(msg, " sent a", p)
    {
      if p + 7 <= |msg| {
        assert msg[p..p + 7][0] == msg[p];
        assert msg[p..p + 7][1] == msg[p + 1];
      }
    }
  }

  /** A message with a single `https` that the left-to-right scan finds, and no other,
      loses exactly those five characters. */
  lemma CleanOnce(before: string, after: string)
    requires forall p :: 0 <= p < |before| ==> !OccursAt(before + "https" + after, "https", p)
    requires !Contains(after, "https")
    ensures Clean(before + "https" + after) == before + after
  {
    var msg, rest := before + "https" + after, "https" + after;
    assert msg == before + rest;
    assert IgnoredWords[..0] == [] && IgnoredWords[0] == "https";
    assert RemoveWords(msg, IgnoredWords[..0]) == msg;
    RemoveAllPlain(before, rest, "https");
    assert OccursAt(rest, "https", 0) && rest[5..] == after;
    RemoveAllAbsent(after, "https");
  }

  /** The example link message loses its `https`. */
  lemma CleanExample(msg: string, before: string, after: string)
    requires before == "see " && after == "://x" && msg == before + "https" + after
    ensures Clean(msg) == before + after
  {
    forall p | 0 <= p < |before|
      ensures !OccursAt(msg, "https", p)
    {
      assert msg[p..p + 5][0] == msg[p];
    }
    CleanOnce(before, after);
  }

  /** The removal is a single pass: deleting the `https` inside `hthttpstps` joins its two
      halves into a new `https`, which stays in the text. */
  lemma SinglePassExample(before: string, after: string)
    requires before == "ht" && after == "tps"
    ensures Clean(before + "https" + after) == "https"
    ensures Contains(Clean(before + "https" + after), "https")
  {
    var msg := before + "https" + after;
    forall p | 0 <= p < |before|
      ensures !OccursAt(msg, "https", p)
    {
      assert msg[p..p + 5][2] == msg[p + 2];
    }
    CleanOnce(before, after);
    assert before + after == "https";
    assert OccursAt("https", "https", 0);
  }
}
