/** components/ranking/constants.tsx: month names and the lookup rules that turn
    ranking indices and trophy positions into titles, icons and medals. The icons
    are rendered elements in the source; here they are named by what they show. */
module Constants {
  import opened Common

  const MonthNames: seq<string> := [
    "Enero", "Febrero", "Marzo", "Abril", "Mayo", "Junio",
    "Julio", "Agosto", "Septiembre", "Octubre", "Noviembre", "Diciembre"]

  const RankTitles: seq<string> := [
    "Dios Omnipotente", "Ballena Culona", "Ardilla Mamona", "Rata Suprema",
    "Garrapata Succionadora"]

  /** The name of month `month` (1-based), as the close-month prompt shows it. */
  function MonthName(month: int): (r: string)
    requires 1 <= month <= 12
    ensures r in MonthNames && r != ""
    ensures month == 1 ==> r == "Enero"
    ensures month == 12 ==> r == "Diciembre"
  {
    MonthNames[month - 1]
  }

  /** `getRankTitle(index)`: the title of the ranking row at `index`, or "" when the
      index is past the end of the title table. */
  function RankTitle(index: int): (r: string)
    ensures r != "" <==> 0 <= index < 5
    ensures 0 <= index < 5 ==> r == RankTitles[index]
  {
    if 0 <= index < |RankTitles| then RankTitles[index] else ""
  }

  /** What `getTrophyIcon` draws. */
  datatype Icon = GoldTrophy | SilverTrophy | BronzeTrophy | Cockroach

  /** `getTrophyIcon(position)`: an icon for the podium positions and the shame
      position, nothing (`null`) for any other position. */
  function TrophyIcon(position: int): (r: Option<Icon>)
    ensures r.Some? <==> position == 1 || position == 2 || position == 3 || position == 5
    ensures r == Some(Cockroach) <==> position == 5
  {
    if position == 1 then Some(GoldTrophy)
    else if position == 2 then Some(SilverTrophy)
    else if position == 3 then Some(BronzeTrophy)
    else if position == 5 then Some(Cockroach)
    else None
  }

  /** Distinct displayable positions are drawn with distinct icons. */
  lemma TrophyIconsDistinct(a: int, b: int)
    requires TrophyIcon(a).Some? && TrophyIcon(b).Some?
    ensures TrophyIcon(a) == TrophyIcon(b) ==> a == b
  {
  }

  /** What `getMedal` draws beside a ranking row. */
  datatype Medal = GoldMedal | SilverMedal | BronzeMedal | Rank(number: int)

  /** `getMedal(index)`: a medal for the first three rows, the 1-based row number
      for every other row. */
  function MedalFor(index: int): (r: Medal)
    ensures r.Rank? <==> !(0 <= index <= 2)
    ensures r.Rank? ==> r.number == index + 1
    ensures r == GoldMedal <==> index == 0
  {
    if index == 0 then GoldMedal
    else if index == 1 then SilverMedal
    else if index == 2 then BronzeMedal
    else Rank(index + 1)
  }

  /** The trophy of podium position k and the medal of the row at index k - 1
      have the same colour: gold, silver and bronze in that order. */
  lemma TrophyAndMedalAgree(k: int)
    requires 1 <= k <= 3
    ensures TrophyIcon(k) == Some(GoldTrophy) <==> MedalFor(k - 1) == GoldMedal
    ensures TrophyIcon(k) == Some(SilverTrophy) <==> MedalFor(k - 1) == SilverMedal
    ensures TrophyIcon(k) == Some(BronzeTrophy) <==> MedalFor(k - 1) == BronzeMedal
  {
  }
}
