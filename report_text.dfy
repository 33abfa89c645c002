/** Query text both source files write identically: the SELECT text of the
    peak and playtime reports up to their WHERE, and the GROUP BY ... ORDER BY
    text after it, with the source's whitespace. */
module ReportText {

  const PeakCcuSelect: string :=
    "\n    SELECT \n        g.name, \n        MAX(f.`Peak CCU`) AS highest_peak_ccu\n    FROM \n        dim_game g\n    JOIN \n        fact_sales f ON g.`AppID` = f.`AppID`\n    WHERE \n        "
  const PeakCcuOrder: string :=
    "\n    GROUP BY \n        g.name\n    ORDER BY \n        highest_peak_ccu DESC;\n    "

  const PlaytimeSelect: string :=
    "\n    SELECT \n        g.name, \n        AVG(f.`Average playtime forever`) AS average_playtime, \n        AVG(f.`Median playtime forever`) AS median_playtime\n    FROM \n        dim_game g\n    JOIN \n        fact_sales f ON g.`AppID` = f.`AppID`\n    WHERE \n        "
  const PlaytimeOrder: string :=
    "\n    GROUP BY \n        g.name\n    ORDER BY \n        average_playtime DESC;\n    "
}
