/**
 Acceptance of a page snapshot: bounds on each message, an order check over all of them and the counts the page
 reported. Together they leave no room: an accepted snapshot that was not cut lists every message once.
 */
module Snapshot {
  import opened Basics

  const MAX_MESSAGE_SUMMARIES := 100
  const MAX_TEXT_CODE_POINTS := 160
  const MAX_SAFE_INTEGER := 9_007_199_254_740_991

  datatype Role = User | Assistant

  /** A message as the page describes it; `textsHold` stands for the checks on its two texts and other attributes. */
  datatype Node = Node(
    role: Role, ordinal: int, documentOrdinal: int, messageId: Option<string>, messageIdUnique: bool,
    authorRole: Option<Role>, idAttribute: Option<string>, textsHold: bool)

  /** What the page reports; `otherFieldsHold` stands for the checks that do not concern its messages. */
  datatype Page = Page(
    observedUser: int, observedAssistant: int, observedMessages: int, nodes: seq<Node>, truncated: bool, otherFieldsHold: bool)

  predicate SafeCount(n: int) {
    0 <= n <= MAX_SAFE_INTEGER
  }

  function Observed(page: Page, role: Role): int {
    if role == User then page.observedUser else page.observedAssistant
  }

  /** One to 512 characters, none of them a control character. */
  predicate MessageId(id: string) {
    1 <= |id| <= 512 && forall i :: 0 <= i < |id| ==> id[i] > '\U{001f}' && id[i] != '\U{007f}'
  }

  function Bounded(text: string): string {
    if |text| <= MAX_TEXT_CODE_POINTS then text else text[..MAX_TEXT_CODE_POINTS]
  }

  predicate ValidNode(page: Page, node: Node) {
    && SafeCount(node.ordinal) && SafeCount(node.documentOrdinal)
    && (node.messageId.Some? ==> MessageId(node.messageId.value))
    && node.messageId.Some? == node.messageIdUnique
    && node.ordinal < Observed(page, node.role)
    && node.authorRole == Some(node.role)
    && (node.messageId.Some? ==> node.idAttribute == Some(Bounded(node.messageId.value)))
    && node.textsHold
  }

  predicate ValidCounts(page: Page) {
    && SafeCount(page.observedUser) && SafeCount(page.observedAssistant) && SafeCount(page.observedMessages)
    && |page.nodes| <= MAX_MESSAGE_SUMMARIES
    && page.observedMessages == page.observedUser + page.observedAssistant
    && (if page.truncated then |page.nodes| == MAX_MESSAGE_SUMMARIES && page.observedMessages > |page.nodes|
        else |page.nodes| == page.observedMessages)
    && page.otherFieldsHold
  }

  /** The ordinals of one role's messages, in the order listed. */
  function Ordinals(nodes: seq<Node>, role: Role): (r: seq<int>)
    ensures |r| <= |nodes|
  {
    if nodes == [] then []
    else
      var before, last := Ordinals(nodes[..|nodes| - 1], role), nodes[|nodes| - 1];
      if last.role == role then before + [last.ordinal] else before
  }

  /** Each ordinal is one more than the one before. */
  predicate Consecutive(ordinals: seq<int>) {
    forall i :: 0 < i < |ordinals| ==> ordinals[i] == ordinals[0] + i
  }

  predicate InDocumentOrder(nodes: seq<Node>) {
    forall i, j :: 0 <= i < j < |nodes| ==> nodes[i].documentOrdinal < nodes[j].documentOrdinal
  }

  predicate Ordered(nodes: seq<Node>) {
    InDocumentOrder(nodes) && Consecutive(Ordinals(nodes, User)) && Consecutive(Ordinals(nodes, Assistant))
  }

  predicate Accepted(page: Page) {
    && ValidCounts(page)
    && (forall i :: 0 <= i < |page.nodes| ==> ValidNode(page, page.nodes[i]))
    && Ordered(page.nodes)
  }

  /** The order check of the script, with the last document ordinal and the last ordinal of each role at hand. */
  method ValidateInspectionSnapshot(page: Page) returns (accepted: bool)
    ensures accepted <==> Accepted(page)
  {
    hide ValidNode, ValidCounts, Ordered;
    if !ValidCounts(page) {
      return false;
    }
    if exists i :: 0 <= i < |page.nodes| && !ValidNode(page, page.nodes[i]) {
      return false;
    }
    if |page.nodes| > 0 {
      NonNegativeDocument(page);
    }
    var previousDocumentOrdinal := -1;
    var previousRoleOrdinal: map<Role, int> := map[];
    var n := 0;
    NothingOrdered();
    assert page.nodes[..0] == [];
    while n < |page.nodes|
      invariant 0 <= n <= |page.nodes|
      invariant Ordered(page.nodes[..n])
      invariant previousDocumentOrdinal == if n == 0 then -1 else page.nodes[n - 1].documentOrdinal
      invariant forall role :: Remembers(page.nodes[..n], role, previousRoleOrdinal)
    {
      var node := page.nodes[n];
      OrderedStep(page.nodes, n);
      if node.documentOrdinal <= previousDocumentOrdinal {
        OrderedPrefix(page.nodes, n + 1);
        return false;
      }
      assert Remembers(page.nodes[..n], node.role, previousRoleOrdinal);
      if node.role in previousRoleOrdinal && node.ordinal != previousRoleOrdinal[node.role] + 1 {
        OrderedPrefix(page.nodes, n + 1);
        return false;
      }
      previousDocumentOrdinal := node.documentOrdinal;
      ghost var known := previousRoleOrdinal;
      previousRoleOrdinal := previousRoleOrdinal[node.role := node.ordinal];
      ghost var longer := page.nodes[..n + 1];
      forall role ensures Remembers(longer, role, previousRoleOrdinal) {
        assert Remembers(page.nodes[..n], role, known);
        OrdinalsStep(page.nodes, n, role);
      }
      n := n + 1;
    }
    assert page.nodes[..n] == page.nodes;
    return true;
  }

  predicate Remembers(nodes: seq<Node>, role: Role, previous: map<Role, int>) {
    var known := Ordinals(nodes, role);
    (role in previous <==> known != []) && (role in previous ==> previous[role] == known[|known| - 1])
  }

  lemma NonNegativeDocument(page: Page)
    requires |page.nodes| > 0 && ValidNode(page, page.nodes[0])
    ensures page.nodes[0].documentOrdinal > -1
  {
  }

  lemma NothingOrdered()
    ensures Ordered([])
    ensures forall role :: Ordinals([], role) == []
  {
  }

  lemma OrdinalsStep(nodes: seq<Node>, n: nat, role: Role)
    requires n < |nodes|
    ensures var before := Ordinals(nodes[..n], role);
            Ordinals(nodes[..n + 1], role) == if nodes[n].role == role then before + [nodes[n].ordinal] else before
  {
    assert nodes[..n + 1][..n] == nodes[..n];
  }

  lemma ConsecutiveStep(ordinals: seq<int>, next: int)
    ensures Consecutive(ordinals + [next]) <==>
            Consecutive(ordinals) && (ordinals != [] ==> next == ordinals[|ordinals| - 1] + 1)
  {
    var all := ordinals + [next];
    assert forall i :: 0 <= i < |ordinals| ==> all[i] == ordinals[i];
    assert all[|ordinals|] == next;
  }

  /** One more message keeps the order exactly if it comes later and is its role's next. */
  lemma OrderedStep(nodes: seq<Node>, n: nat)
    requires n < |nodes| && Ordered(nodes[..n])
    ensures var known := Ordinals(nodes[..n], nodes[n].role);
            Ordered(nodes[..n + 1]) <==>
            && (n > 0 ==> nodes[n - 1].documentOrdinal < nodes[n].documentOrdinal)
            && (known != [] ==> nodes[n].ordinal == known[|known| - 1] + 1)
  {
    hide Ordinals, Consecutive, InDocumentOrder;
    OrdinalsStep(nodes, n, User);
    OrdinalsStep(nodes, n, Assistant);
    ConsecutiveStep(Ordinals(nodes[..n], nodes[n].role), nodes[n].ordinal);
    DocumentStep(nodes, n);
  }

  lemma DocumentStep(nodes: seq<Node>, n: nat)
    requires n < |nodes| && InDocumentOrder(nodes[..n])
    ensures InDocumentOrder(nodes[..n + 1]) <==> (n > 0 ==> nodes[n - 1].documentOrdinal < nodes[n].documentOrdinal)
  {
    var before, after := nodes[..n], nodes[..n + 1];
    assert forall i :: 0 <= i < n ==> after[i] == before[i] && before[i] == nodes[i];
    assert after[n] == nodes[n];
    if n > 0 && nodes[n - 1].documentOrdinal < nodes[n].documentOrdinal {
      forall i | 0 <= i < n ensures after[i].documentOrdinal < after[n].documentOrdinal {
        assert i < n - 1 ==> before[i].documentOrdinal < before[n - 1].documentOrdinal;
      }
    }
  }

  lemma {:induction false} OrderedPrefix(nodes: seq<Node>, n: nat)
    requires n <= |nodes|
    ensures Ordered(nodes) ==> Ordered(nodes[..n])
    decreases |nodes| - n
  {
    if n == |nodes| {
      assert nodes[..n] == nodes;
    } else {
      OrderedPrefix(nodes, n + 1);
      OrdinalsStep(nodes, n, User);
      OrdinalsStep(nodes, n, Assistant);
      ConsecutiveStep(Ordinals(nodes[..n], nodes[n].role), nodes[n].ordinal);
      hide Ordinals, Consecutive;
      assert forall i :: 0 <= i < n ==> nodes[..n][i] == nodes[..n + 1][i];
    }
  }

  // ----- what acceptance means -----

  /** Every message is of one role. */
  lemma {:induction false} RolesCoverAll(nodes: seq<Node>)
    ensures |Ordinals(nodes, User)| + |Ordinals(nodes, Assistant)| == |nodes|
  {
    if nodes != [] {
      RolesCoverAll(nodes[..|nodes| - 1]);
    }
  }

  lemma {:induction false} OrdinalsBounded(page: Page, n: nat, role: Role)
    requires n <= |page.nodes| && forall i :: 0 <= i < n ==> ValidNode(page, page.nodes[i])
    ensures forall k :: 0 <= k < |Ordinals(page.nodes[..n], role)| ==>
                          0 <= Ordinals(page.nodes[..n], role)[k] < Observed(page, role)
  {
    hide Ordinals, ValidNode, Observed;
    if n > 0 {
      OrdinalsBounded(page, n - 1, role);
      OrdinalsStep(page.nodes, n - 1, role);
      NodeBounded(page, page.nodes[n - 1]);
    } else {
      NothingOrdered();
      assert page.nodes[..0] == [];
    }
  }

  lemma NodeBounded(page: Page, node: Node)
    requires ValidNode(page, node)
    ensures 0 <= node.ordinal < Observed(page, node.role)
  {
  }

  /** The ordinals of a role form one window within what was observed. */
  lemma RoleWindow(page: Page, role: Role)
    requires Accepted(page)
    ensures var listed := Ordinals(page.nodes, role);
            && |listed| <= Observed(page, role)
            && (listed != [] ==> 0 <= listed[0] && listed[0] + |listed| <= Observed(page, role))
            && (forall i :: 0 <= i < |listed| ==> listed[i] == listed[0] + i)
  {
    hide Ordinals, ValidNode, InDocumentOrder;
    OrdinalsBounded(page, |page.nodes|, role);
    assert page.nodes[..|page.nodes|] == page.nodes;
    var listed := Ordinals(page.nodes, role);
    if listed != [] {
      assert listed[|listed| - 1] == listed[0] + |listed| - 1;
    } else {
      assert ValidCounts(page);
    }
  }

  /**
   An accepted snapshot that was not cut lists every message of either role exactly once, in order: the counts leave
   no room for a gap at either end.
   */
  lemma ListsEveryMessageOnce(page: Page, role: Role)
    requires Accepted(page) && !page.truncated
    ensures Ordinals(page.nodes, role) == seq(Observed(page, role), i => i)
  {
    hide Ordinals, Ordered, ValidNode;
    RolesCoverAll(page.nodes);
    RoleWindow(page, User);
    RoleWindow(page, Assistant);
    hide Accepted;
  }

  /** A cut snapshot lists one unbroken stretch of each role and leaves out exactly the messages over its limit. */
  lemma CutLeavesOutTheRest(page: Page)
    requires Accepted(page) && page.truncated
    ensures var users, assistants := Ordinals(page.nodes, User), Ordinals(page.nodes, Assistant);
            && Consecutive(users) && Consecutive(assistants)
            && (page.observedUser - |users|) + (page.observedAssistant - |assistants|) ==
               page.observedMessages - MAX_MESSAGE_SUMMARIES
            && |users| <= page.observedUser && |assistants| <= page.observedAssistant
            && page.observedMessages > MAX_MESSAGE_SUMMARIES
  {
    hide Ordinals, ValidNode;
    RolesCoverAll(page.nodes);
    RoleWindow(page, User);
    RoleWindow(page, Assistant);
  }

  /** No two messages of an accepted snapshot, cut or not, are the same message of the same role. */
  lemma NoMessageTwice(page: Page, i: nat, j: nat)
    requires Accepted(page) && i < j < |page.nodes| && page.nodes[i].role == page.nodes[j].role
    ensures page.nodes[i].ordinal < page.nodes[j].ordinal
  {
    var role := page.nodes[i].role;
    var listed := Ordinals(page.nodes, role);
    RoleWindow(page, role);
    var a := PlaceOf(page.nodes, i);
    var b := PlaceOf(page.nodes, j);
    PlacesAscend(page.nodes, i, j);
    hide *;
  }

  /** Where a message stands in the list of its role: after as many as precede it. */
  lemma PlaceOf(nodes: seq<Node>, i: nat) returns (k: nat)
    requires i < |nodes|
    ensures k == |Ordinals(nodes[..i], nodes[i].role)|
    ensures k < |Ordinals(nodes, nodes[i].role)| && Ordinals(nodes, nodes[i].role)[k] == nodes[i].ordinal
  {
    k := |Ordinals(nodes[..i], nodes[i].role)|;
    OrdinalsStep(nodes, i, nodes[i].role);
    OrdinalsGrow(nodes, i + 1, |nodes|, nodes[i].role);
    assert nodes[..|nodes|] == nodes;
    hide Ordinals;
  }

  lemma {:induction false} OrdinalsGrow(nodes: seq<Node>, m: nat, n: nat, role: Role)
    requires m <= n <= |nodes|
    ensures Ordinals(nodes[..m], role) <= Ordinals(nodes[..n], role)
    decreases n - m
  {
    if m < n {
      OrdinalsStep(nodes, n - 1, role);
      OrdinalsGrow(nodes, m, n - 1, role);
    }
  }

  lemma PlacesAscend(nodes: seq<Node>, i: nat, j: nat)
    requires i < j < |nodes| && nodes[i].role == nodes[j].role
    ensures |Ordinals(nodes[..i], nodes[i].role)| < |Ordinals(nodes[..j], nodes[j].role)|
  {
    OrdinalsStep(nodes, i, nodes[i].role);
    OrdinalsGrow(nodes, i + 1, j, nodes[i].role);
  }

  /** Conversely the checks ask for no more: valid messages in document order that are all there are accepted. */
  lemma CompleteIsAccepted(page: Page)
    requires ValidCounts(page) && !page.truncated && InDocumentOrder(page.nodes)
    requires forall i :: 0 <= i < |page.nodes| ==> ValidNode(page, page.nodes[i])
    ensures Accepted(page) <==> forall role :: Ordinals(page.nodes, role) == seq(Observed(page, role), i => i)
  {
    hide Ordinals, ValidNode, InDocumentOrder;
    if Accepted(page) {
      forall role ensures Ordinals(page.nodes, role) == seq(Observed(page, role), i => i) {
        ListsEveryMessageOnce(page, role);
      }
    }
    if forall role :: Ordinals(page.nodes, role) == seq(Observed(page, role), i => i) {
      assert Ordinals(page.nodes, User) == seq(Observed(page, User), i => i);
      assert Ordinals(page.nodes, Assistant) == seq(Observed(page, Assistant), i => i);
    }
  }

  /** A message id as the page may give it: 1 to 512 characters, neither control characters nor a delete. */
  predicate PlainId(id: string) {
    id != "" && |id| < 513 && forall c :: c in id ==> c >= ' ' && c as int != 127
  }

  lemma PlainIdExactly(id: string)
    ensures MessageId(id) <==> PlainId(id)
  {
    if MessageId(id) {
      forall c | c in id ensures c >= ' ' && c as int != 127 {
        var i :| 0 <= i < |id| && id[i] == c;
      }
    }
    if PlainId(id) {
      forall i | 0 <= i < |id| ensures id[i] > '\U{001f}' && id[i] != '\U{007f}' {
        assert id[i] in id;
      }
    }
  }

  /**
   A message is taken exactly if its ordinals are counts, the one of its role below the number observed, the page says
   its author has that role, its texts hold, and either it has no id and is not said to have a unique one, or its id is
   plain, said to be unique, and its attribute is that id up to 160 characters.
   */
  lemma NodeExactly(page: Page, node: Node)
    ensures ValidNode(page, node) <==>
            && 0 <= node.documentOrdinal < 9_007_199_254_740_992 && 0 <= node.ordinal < 9_007_199_254_740_992
            && node.ordinal < (match node.role case User => page.observedUser case Assistant => page.observedAssistant)
            && node.authorRole == Some(node.role) && node.textsHold
            && match node.messageId
               case None => !node.messageIdUnique
               case Some(id) =>
                 && PlainId(id) && node.messageIdUnique && node.idAttribute.Some?
                 && node.idAttribute.value <= id && |node.idAttribute.value| == Min(|id|, 160)
  {
    if node.messageId.Some? {
      PlainIdExactly(node.messageId.value);
      if node.idAttribute.Some? {
        BoundedExactly(node.messageId.value, node.idAttribute.value);
      }
    }
    hide MessageId, PlainId, Bounded;
  }

  lemma BoundedExactly(id: string, t: string)
    ensures t == Bounded(id) <==> t <= id && |t| == Min(|id|, 160)
  {
    assert t <= id ==> t == id[..|t|];
  }

  /** The counts of a page hold exactly if they add up and the list is whole, or is full and leaves messages out. */
  lemma CountsExactly(page: Page)
    ensures ValidCounts(page) <==>
            && 0 <= page.observedUser && 0 <= page.observedAssistant && page.otherFieldsHold
            && page.observedUser + page.observedAssistant == page.observedMessages < 9_007_199_254_740_992
            && |page.nodes| < 101 && |page.nodes| <= page.observedMessages
            && (page.truncated ==> |page.nodes| == 100)
            && (page.truncated <==> page.observedMessages != |page.nodes|)
  {
  }
}
