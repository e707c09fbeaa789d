/**
 The data model of the achievement tree: the two closed enumerations, the
 immutable achievement record and the per-session user progress.
 */
module Types {

  /** An optional value; `None` plays the role of a missing field or a failed lookup. */
  datatype Option<+T> = None | Some(value: T)

  /** The cosmetic kind of a node; it never affects unlock logic. */
  datatype AchievementType = Root | Task | Goal | Challenge

  /** The reporting category of a node; used only for statistics. */
  datatype Category = General | Academic | Exploration | Social

  /** One node of the catalog. `parentId` is absent only for the root. */
  datatype Achievement = Achievement(
    id: string,
    parentId: Option<string>,
    title: string,
    description: string,
    iconName: string,
    kind: AchievementType,
    category: Category,
    globalCompletionRate: int,
    xp: int
  )

  /** The session state: the unlocked ids in unlock order and the XP earned so far. */
  datatype UserProgress = UserProgress(unlockedIds: seq<string>, totalXp: int)

  /**
   The parent link as the application reads it: the source tests `parentId`
   for truthiness, so an empty-string parent counts as no parent at all.
   */
  function ParentLink(a: Achievement): (r: Option<string>)
    ensures r.Some? <==> a.parentId.Some? && a.parentId.value != ""
    ensures r.Some? ==> r.value == a.parentId.value
  {
    match a.parentId
    case None => None
    case Some(p) => if p == "" then None else Some(p)
  }
}
