/**
 The vocabulary of a PAM resource-limits file: the limit types and limit items
 a directive may name, and the request the reconciler is asked to enforce.
 */
module Limits {
  import opened Text

  /** `soft`, `hard` or `-` (both). */
  datatype LimitType = Soft | Hard | Both

  /** The nineteen resources a limit can bound. */
  datatype LimitItem =
    | Core | Data | Fsize | Memlock | Nofile | Rss | Stack | Cpu | Nproc | As
    | Maxlogins | Maxsyslogins | Priority | Locks | Sigpending | Msgqueue | Nice
    | Rtprio | Chroot

  /** The accepted limit types, in the order the module lists them. */
  const PamTypes: seq<string> := ["soft", "hard", "-"]

  /** The accepted limit items, in the order the module lists them. */
  const PamItems: seq<string> :=
    ["core", "data", "fsize", "memlock", "nofile", "rss", "stack", "cpu", "nproc", "as",
     "maxlogins", "maxsyslogins", "priority", "locks", "sigpending", "msgqueue", "nice",
     "rtprio", "chroot"]

  /** The position of a limit type in PamTypes. */
  function TypeIndex(t: LimitType): (k: nat)
    ensures k < |PamTypes|
  {
    match t
    case Soft => 0
    case Hard => 1
    case Both => 2
  }

  /** The text a limit type is written as in the file: its entry in PamTypes. */
  function TypeName(t: LimitType): (s: string)
    ensures s == PamTypes[TypeIndex(t)]
  {
    match t
    case Soft => "soft"
    case Hard => "hard"
    case Both => "-"
  }

  /** Distinct limit types are written as distinct texts. */
  lemma TypeNameInjective(t: LimitType, u: LimitType)
    requires TypeName(t) == TypeName(u)
    ensures t == u
  {
  }

  /** The position of a limit item in PamItems. */
  function ItemIndex(i: LimitItem): (k: nat)
    ensures k < |PamItems|
  {
    match i
    case Core => 0
    case Data => 1
    case Fsize => 2
    case Memlock => 3
    case Nofile => 4
    case Rss => 5
    case Stack => 6
    case Cpu => 7
    case Nproc => 8
    case As => 9
    case Maxlogins => 10
    case Maxsyslogins => 11
    case Priority => 12
    case Locks => 13
    case Sigpending => 14
    case Msgqueue => 15
    case Nice => 16
    case Rtprio => 17
    case Chroot => 18
  }

  /** The text a limit item is written as in the file: its entry in PamItems. */
  function ItemName(i: LimitItem): (s: string)
    ensures s == PamItems[ItemIndex(i)]
  {
    match i
    case Core => "core"
    case Data => "data"
    case Fsize => "fsize"
    case Memlock => "memlock"
    case Nofile => "nofile"
    case Rss => "rss"
    case Stack => "stack"
    case Cpu => "cpu"
    case Nproc => "nproc"
    case As => "as"
    case Maxlogins => "maxlogins"
    case Maxsyslogins => "maxsyslogins"
    case Priority => "priority"
    case Locks => "locks"
    case Sigpending => "sigpending"
    case Msgqueue => "msgqueue"
    case Nice => "nice"
    case Rtprio => "rtprio"
    case Chroot => "chroot"
  }

  /** Distinct limit items are written as distinct texts. */
  lemma ItemNameInjective(i: LimitItem, j: LimitItem)
    requires ItemName(i) == ItemName(j)
    ensures i == j
  {
  }

  /** Every limit type is written as one field: a plain word. */
  lemma TypeNamePlain(t: LimitType)
    ensures PlainWord(TypeName(t))
  {
    assert PlainWord("soft") && PlainWord("hard") && PlainWord("-");
  }

  /** Every limit item is written as one field: a plain word. The nineteen
      names are checked in groups, which keeps each proof small. */
  lemma ItemNamePlain(i: LimitItem)
    ensures PlainWord(ItemName(i))
  {
    ItemNamesPlain0();
    ItemNamesPlain1();
    ItemNamesPlain2();
    ItemNamesPlain3();
  }

  lemma ItemNamesPlain0()
    ensures PlainWord("core")
         && PlainWord("data")
         && PlainWord("fsize")
         && PlainWord("memlock")
         && PlainWord("nofile")
  {
  }

  lemma ItemNamesPlain1()
    ensures PlainWord("rss")
         && PlainWord("stack")
         && PlainWord("cpu")
         && PlainWord("nproc")
         && PlainWord("as")
  {
  }

  lemma ItemNamesPlain2()
    ensures PlainWord("maxlogins")
         && PlainWord("maxsyslogins")
         && PlainWord("priority")
         && PlainWord("locks")
         && PlainWord("sigpending")
  {
  }

  lemma ItemNamesPlain3()
    ensures PlainWord("msgqueue")
         && PlainWord("nice")
         && PlainWord("rtprio")
         && PlainWord("chroot")
  {
  }

  /** One reconciliation request: the directive key (domain, type, item), the
      wanted value, the merge policy flags, and the comment override (empty
      when none was given). */
  datatype Request = Request(
    domain: string,
    limitType: LimitType,
    limitItem: LimitItem,
    value: int,
    useMax: bool,
    useMin: bool,
    comment: string)

  /** Why a run is refused: both policy flags were set, or a four-field line
      (the offending line is kept) has a fourth field that is not an integer. */
  datatype Error = ConflictingPolicy | BadValue(line: string)

  /** What a successful run produces: the text written to the new file, piece
      by piece in write order, whether anything changed, and the final text of
      the affected record. */
  datatype Outcome = Outcome(lines: seq<string>, changed: bool, message: string)
}
