/**
 * The constants of the cleaning scripts: named addresses, rule tables in
 * their original order, column names and word lists.
 */
module Tables {
  import opened Rules
  /** What an address that cannot be placed becomes. */
  const UnknownAddress: string := "Unknown"
  /** The Thurgood Marshall building. */
  const Thurgood: string := "1 Columbus Circle NE"
  /** What an unidentifiable bird becomes. */
  const UnknownBird: string := "Unknown"

  // Each rule is named after the line of clean_data.py that holds it.

  const Line25: Rule := Rule("corner at 7th and New York Ave NW", "")
  const Line26: Rule := Rule("at the corner with Palmer Alley NW", "")
  const Line27: Rule := Rule("NE Building", "")
  const Line28: Rule := Rule("Consitution", "Constitution")
  const Line29: Rule := Rule("Maine SW", "Maine Ave SW")
  const Line30: Rule := Rule("First", "1st")
  const Line31: Rule := Rule("Second", "2nd")
  const Line32: Rule := Rule("Third", "3rd")
  const Line33: Rule := Rule("Fourth", "4th")
  const Line34: Rule := Rule("Fifth", "5th")
  const Line35: Rule := Rule("Sixth", "6th")
  const Line36: Rule := Rule("Seventh", "7th")
  const Line37: Rule := Rule("Eighth", "8th")
  const Line38: Rule := Rule("Ninth", "9th")
  const Line39: Rule := Rule("Street", "St")
  const Line40: Rule := Rule("Avenue", "Ave")
  const Line41: Rule := Rule("AVE", "Ave")
  const Line42: Rule := Rule(" st ", " St ")
  const Line43: Rule := Rule("N Capitol St", "North Capitol St")
  const Line44: Rule := Rule("Circke", "Circle")
  const Line45: Rule := Rule("Condos", "Condominiums")
  const Line46: Rule := Rule("Bldg", "Building")
  const Line47: Rule := Rule("Thurgood Marshall or 400 North Capitol", "1 Columbus Circle NE")
  const Line48: Rule := Rule("MLK Jr", "901 G St NW")
  const Line49: Rule := Rule("Collumbus", "Columbus")
  const Line50: Rule := Rule("Nationals Park Stadium", "Nationals Stadium")
  const Line51: Rule := Rule("Convention Center SE", "801 Mt Vernon Pl NW")
  const Line52: Rule := Rule("Building E facing window", "building")
  const Line53: Rule := Rule("Mass Ave", "Massachusetts Ave")
  const Line54: Rule := Rule("Middle of sidewalk in front of Metropolitan News", "")
  const Line55: Rule := Rule(" in the corner with CVS entrance", "")
  const Line56: Rule := Rule(" east side at corner", "")
  const Line57: Rule := Rule(" Giant", "")
  const Line58: Rule := Rule(" DC 20002", "")
  const Line59: Rule := Rule(" on the MBT trail", "")
  const Line60: Rule := Rule(" North side", "")
  const Line61: Rule := Rule(" In nook of the building on the 21st St side", "")
  const Line62: Rule := Rule(" in front of pool window", "")
  const Line63: Rule := Rule(" in front of parking garage entrance", "")
  const Line64: Rule := Rule("Thurgod Marshall Building", "1 Columbus Circle NE")
  const Line65: Rule := Rule("MLK library", "901 G St NW")
  const Line66: Rule := Rule("In front of the entrance labeled \"Stonebridge Carras\"", "151 N St NE")
  const Line67: Rule := Rule("1010 10th St", "1010 10th St NW")
  const Line68: Rule := Rule("1050 17th St NW at L St", "1050 17th St NW")
  const Line69: Rule := Rule("1050 K St NW parking garage entrance", "1050 K St NW")
  const Line70: Rule := Rule("1090 I St NW WDC 20268", "1090 I St NW")
  const Line71: Rule := Rule("111 Massachusetts NW", "111 Massachusetts Ave NW")
  const Line72: Rule := Rule("1111 19th NW", "1111 19th St NW")
  const Line73: Rule := Rule("1111 20th St", "1111 20th St NW")
  const Line74: Rule := Rule("NY Ave ", "New York Ave ")
  const Line75: Rule := Rule(" Sts ", " St ")
  const Line76: Rule := Rule("Dan found the bird at the DOEE building He will take it to CW", "")
  const Line77: Rule := Rule(" Place ", " Pl ")
  const Line78: Rule := Rule("N Carolina", "North Carolina")
  const Line79: Rule := Rule("1313 L St NW in bike lane", "1313 L St NW")
  const Line80: Rule := Rule("1331 Pennysylvania Ave NW", "1331 Pennsylvania Ave NW")
  const Line81: Rule := Rule("13th and U St NW NW corner near Alero", "13th and U St NW")
  const Line82: Rule := Rule("1815 7th St NW by the Shaw metro entrance", "1815 7th St NW")
  const Line83: Rule := Rule("18th and P St NW NE corner", "18th and P St NW")
  const Line84: Rule := Rule("circle", "Circle")
  const Line85: Rule := Rule("1010 10th St NW NW", "1010 10th St NW")
  const Line86: Rule := Rule("1201 15th St", "1201 15th St NW")
  const Line87: Rule := Rule("1500 bl 32nd St NW", "1500 32nd St NW")
  const Line88: Rule := Rule("NW NW", "NW")
  const Line89: Rule := Rule(" at the corner with Palmer Alley NW", "")
  const Line90: Rule := Rule("1201 15th St", "1201 15th St NW")
  const Line91: Rule := Rule("15th and L St", "15th and L St NW")
  const Line92: Rule := Rule("17th and L", "17th and L St NW")
  const Line93: Rule := Rule("810 7th St SE or NW?", "810 7th St NW")
  const Line94: Rule := Rule(" near Lafayette Park", "")
  const Line95: Rule := Rule("Audi Field Club shop", "100 Potomac Ave SW")
  const Line96: Rule := Rule("Audi Stadium", "100 Potomac Ave SW")
  const Line97: Rule := Rule("Audi Stadium by store door fronting R St SW and facing North", "100 Potomac Ave SW")
  const Line98: Rule := Rule("BB&T Bank", "Unknown")
  const Line99: Rule := Rule("Brookland in northeast DC", "Unknown")
  const Line100: Rule := Rule("CUA campus", "620 Michigan Ave NE")
  const Line101: Rule := Rule("City Center courtyard", "825 10th St NW")
  const Line102: Rule := Rule("City Center: Burberry", "825 10th St NW")
  const Line103: Rule := Rule("City Center: H St and 10th", "825 10th St NW")
  const Line104: Rule := Rule("Adas Israel historic synagogue at 3rd and F NW", "3rd St and F St NW")
  const Line105: Rule := Rule("Air and Space Museum", "600 Independence Ave SW")
  const Line106: Rule := Rule("Arena Stage", "1101 6th St SW")
  const Line107: Rule := Rule("Close to the Embassy of Afghanistan", "2233 Wisconsin Ave NW")
  const Line108: Rule := Rule("Coast Guard Building SE", "2703 Martin Luther King Jr Ave SE")
  const Line109: Rule := Rule("Conn Ave NW", "Connecticut Ave NW")
  const Line110: Rule := Rule("18th and Pennsylvania NW", "18th and Pennsylvania Ave NW")
  const Line111: Rule := Rule(" and Bouqueria Entrance", "")
  const Line112: Rule := Rule("NW and", "NW")
  const Line113: Rule := Rule("NE and", "NE")
  const Line114: Rule := Rule(" corner of 7th and Mt Vernon", "")
  const Line115: Rule := Rule("Convention Center corner at 7th and NY Ave", "7th St and New York Ave NW")
  const Line116: Rule := Rule("Convention Center overpass", "801 Mt Vernon Pl NW")
  const Line117: Rule := Rule("Corner of H St and 18th", "H St and 18th St NW")
  const Line118: Rule := Rule("Corner of New Jersey and D St NW", "New Jersey Ave and D St NW")
  const Line119: Rule := Rule("Date and location unknown", "Unknown")
  const Line120: Rule := Rule("Dept of Transportation near Navy Yard", "250 M St SE")
  const Line121: Rule := Rule("Dior", "933 Palmer Alley NW")
  const Line122: Rule := Rule("Dumbarton Oaks Greenhouse", "")
  const Line123: Rule := Rule("E St", "")
  const Line124: Rule := Rule("EMS Station", "Unknown")
  const Line125: Rule := Rule("Eagle Bank NW corner", "700 K St NW")
  const Line126: Rule := Rule("Eagle Company", "Unknown")
  const Line127: Rule := Rule("Eastern Ave", "")
  const Line128: Rule := Rule("Eastern Market", "")
  const Line129: Rule := Rule("Entrance", "")
  const Line130: Rule := Rule("FS Key Park", "1198 34th and M St NW")
  const Line131: Rule := Rule("Road", "rd")
  const Line132: Rule := Rule("Found in front of 1050 17th St NW", "1050 17th St NW")
  const Line133: Rule := Rule("Found in front of Dolcezza north of Dupont Circle", "1704 Connecticut Ave NW")
  const Line134: Rule := Rule("Found in the courtyard of 1616 P St NW", "1616 P St NW")
  const Line135: Rule := Rule("Freshly dead ovenbird found in front of my small apartment building when I returned home from my route 1917 2nd St NE The glass entry door often has a light on inside all night", "1917 2nd St NE")
  const Line136: Rule := Rule("Front of BBT Bank", "Unknown")
  const Line137: Rule := Rule("GU Law Center", "600 New Jersey Ave NW")
  const Line138: Rule := Rule("GU Law School", "600 New Jersey Ave NW")
  const Line139: Rule := Rule("GU Law School Fitness Center", "600 New Jersey Ave NW")
  const Line140: Rule := Rule("GU Law School Library", "111 G St NW")
  const Line141: Rule := Rule("GU Sport and Fitness Center", "600 New Jersey Ave NW")
  const Line142: Rule := Rule("GW Hospital", "3800 Reservoir Rd NW")
  const Line143: Rule := Rule("Georgetown University Lauinger Library", "3700 O St NW")
  const Line144: Rule := Rule("Georgetown Law School", "600 New Jersey Ave NW")
  const Line145: Rule := Rule("Georgetown Law School Fitness Center", "600 New Jersey Ave NW")
  const Line146: Rule := Rule("Georgetown Law Sport and Fitness Center", "600 New Jersey Ave NW")
  const Line147: Rule := Rule("Georgetown University", "600 New Jersey Ave NW")
  const Line148: Rule := Rule("Georgetown University Law School", "600 New Jersey Ave NW")
  const Line149: Rule := Rule("Georgetown University", "3700 O St NW")
  const Line150: Rule := Rule("Georgetown University at New North Hall glass doors", "3700 O St NW")
  const Line151: Rule := Rule("GWU", "2121 I St NW")
  const Line152: Rule := Rule("Glass Entry 430 E St NW Wash DC", "430 E St NW")
  const Line153: Rule := Rule("Glass entry 430 E St NW WDC", "430 E St NW")
  const Line154: Rule := Rule("Grey Catbird found dead on ground of outdoor patio of Milk Bar on 1090 I St NW", "1090 I St NW")
  const Line155: Rule := Rule("Husband found the bird Juvenile On sidewalk in front of the Georgetown Valet shop at 145 N St NE", "145 N St NE")
  const Line156: Rule := Rule("I found this bird while on my lunch break It was still warm at approx 1 pm Found in front of 1040 17th St NW", "1040 17th St NW")
  const Line157: Rule := Rule("In front of Audi Field Sports Shop main door facing north R St SW", "100 Potomac Ave SW")
  const Line158: Rule := Rule("M St side of 1275 1st St NE", "1275 1st St NE")
  const Line159: Rule := Rule("M and 17th NW corner", "M St and 17th Tt NW")
  const Line160: Rule := Rule("South side of 1601 K St", "1601 K St NW")
  const Line161: Rule := Rule("glass entry 430 E St NW", "430 E St NW")
  const Line162: Rule := Rule("World Bank 1818 H St NW", "1818 H St NW")
  const Line163: Rule := Rule("No address", "Unknown")
  const Line164: Rule := Rule("Other", "Unknown")
  const Line165: Rule := Rule("This was at 700 2nd street NE As we started to drive home", "700 2nd St NE")
  const Line166: Rule := Rule("in front of Tesla store on 9th St", "909 H St NW")
  const Line167: Rule := Rule("Glover Archibold Park", "Unknown")
  const Line168: Rule := Rule("Hall of States", "400-444 North Capitol St NW")
  const Line169: Rule := Rule("Harbour Square Condominiums", "500 N St SW")
  const Line170: Rule := Rule("Hart Senate Building", "120 Constitution Ave NE")
  const Line171: Rule := Rule("Hart Senate Office Building", "120 Constitution Ave NE")
  const Line172: Rule := Rule("In front of Spy Museum below windows facing west", "700 L'Enfant Plaza SW")
  const Line173: Rule := Rule("MLK Library", "901 G St NW")
  const Line174: Rule := Rule("Marie H Reed Recreation Center NW", "2200 Champlain St NW")
  const Line175: Rule := Rule("Marriott Marquis Washington", "901 Massachusetts Ave NW")
  const Line176: Rule := Rule("Martin Luther King Jr Memorial Library", "901 G St NW")
  const Line177: Rule := Rule("Martin Luther King Library", "901 G St NW")
  const Line178: Rule := Rule("National Arboretum", "Unknown")
  const Line179: Rule := Rule("National Geographic", "1145 17th St NW")
  const Line180: Rule := Rule("National Mall", "Unknown")
  const Line181: Rule := Rule("National Zoo", "3001 Connecticut Ave NW")
  const Line182: Rule := Rule("Nationals Stadium", "1500 S Capitol St SE")
  const Line183: Rule := Rule("Old Soldiers and Sailors Home NW", "140 Rock Creek Church Rd NW #7")
  const Line184: Rule := Rule("On east side of Metropolitan Branch Trail at R St NE", "Metropolitan Branch Trail and R St NE")
  const Line185: Rule := Rule("One Dupont Circle", "1 Dupont Circle NW")
  const Line186: Rule := Rule("One Dupont Circle NW side", "1 Dupont Circle NW")
  const Line187: Rule := Rule("Del Frisco's restaurant in courtyard", "")
  const Line188: Rule := Rule("Potbelly", "1050 K St NW")
  const Line189: Rule := Rule("Riverside Condominiums", "1435 4th St SW")
  const Line190: Rule := Rule("Rock Creek Park Maintenance Yard", "Maintenance Rd NW")
  const Line191: Rule := Rule("Rock Creek Stables", "5100 Glover Rd NW")
  const Line192: Rule := Rule("SEC", "100 F St NE")
  const Line193: Rule := Rule("SEC Building", "100 F St NE")
  const Line194: Rule := Rule("Senate Hart Building", "120 Constitution Ave NE")
  const Line195: Rule := Rule("Shaw Metro Station", "1701 8th St NW")
  const Line196: Rule := Rule("Souvenir City", "1001 K St NW")
  const Line197: Rule := Rule("TD Bank", "1753 Connecticut Ave NW")
  const Line198: Rule := Rule("TMB", "1 Columbus Circle NE")
  const Line199: Rule := Rule("Teamster Building", "25 Louisiana Ave NW")
  const Line200: Rule := Rule("Teamsters Building", "25 Louisiana Ave NW")
  const Line201: Rule := Rule("Teamsters' Building", "25 Louisiana Ave NW")
  const Line202: Rule := Rule("Techworld Plaza", "800 K St NW")
  const Line203: Rule := Rule("The Convention Center", "801 Mt Vernon Pl NW")
  const Line204: Rule := Rule("The National Zoo", "3001 Connecticut Ave NW")
  const Line205: Rule := Rule("Thurgood Marshall", "1 Columbus Circle NE")
  const Line206: Rule := Rule("Thurgood Marshall Building", "1 Columbus Circle NE")
  const Line207: Rule := Rule("Tumi Store", "1051 H St NW")
  const Line208: Rule := Rule("Washington DC", "Unknown")
  const Line209: Rule := Rule("Washington Monument", "2 15th St NW")
  const Line210: Rule := Rule("601 K St NW AC Hotel", "601 K St NW")
  const Line211: Rule := Rule("Kingman Island", "Unknown")
  const Line212: Rule := Rule(" on south facing window of B Building Opposite Ft McNair Closest intersection is P and 4th SW", "")
  const Line213: Rule := Rule("455 Massachusetts Avenu NW", "455 Massachusetts Ave NW")
  const Line214: Rule := Rule("NJ Ave", "New Jersey Ave")
  const Line215: Rule := Rule("NY Ave", "New York Ave")
  const Line216: Rule := Rule("bl 32nd St NW", "block of 32nd St NW")
  const Line217: Rule := Rule("601 Massachusetts Ave/601 K St", "601 Massachusetts Ave NW")
  const Line218: Rule := Rule("new Jersey Ave", "New Jersey Ave")
  const Line219: Rule := Rule("Georgia W", "Unknown")
  const Line220: Rule := Rule("Washington", "Unknown")
  const Line221: Rule := Rule("No address", "Unknown")
  const Line222: Rule := Rule(" by store door fronting R St SW and facing North", "")
  const Line223: Rule := Rule(" A Building by front door on north side of building", "")
  const Line224: Rule := Rule(" B Building", "")
  const Line225: Rule := Rule(" Building A Breezeway north side", "")
  const Line226: Rule := Rule(" Building B", "")
  const Line227: Rule := Rule("600 New Jersey Ave NNW", "600 New Jersey Ave NW")
  const Line228: Rule := Rule("600 New Jersey Ave NW Fitness Center", "600 New Jersey Ave NW")
  const Line229: Rule := Rule("600 New Jersey Ave NW Law School", "600 New Jersey Ave NW")
  const Line230: Rule := Rule("600 New Jersey Ave NW Library", "600 New Jersey Ave NW")
  const Line231: Rule := Rule("600 New Jersey Ave NW at New North Hall glass doors", "600 New Jersey Ave NW")
  const Line232: Rule := Rule("601 Massachusetts Ave Building", "601 Massachusetts Ave NW")
  const Line233: Rule := Rule(" at the corner with Palmer Alley NW", "")
  const Line234: Rule := Rule("8th and I St corner Across TechWorld", "8th St and I St NW")
  const Line235: Rule := Rule("in front of Veterans Affairs building", "")
  const Line236: Rule := Rule("at the corner with Palmer Alley NW", "")
  const Line237: Rule := Rule("near Lafayette Park", "")
  const Line238: Rule := Rule("9th St side between G and H streets", "")
  const Line239: Rule := Rule("in front of main facade", "")
  const Line240: Rule := Rule("901 G St NW Library", "901 G St NW")
  const Line241: Rule := Rule("901 G St NW 901 G St NW", "901 G St NW")
  const Line242: Rule := Rule(": next to curb in road", "")

  /** The substring rules applied to every address (ADDRESS_REPLACEMENTS). */
  const AddressReplacements: seq<Rule> := [
    Line25, Line26, Line27, Line28, Line29, Line30, Line31, Line32,
    Line33, Line34, Line35, Line36, Line37, Line38, Line39, Line40,
    Line41, Line42, Line43, Line44, Line45, Line46, Line47, Line48,
    Line49, Line50, Line51, Line52, Line53, Line54, Line55, Line56,
    Line57, Line58, Line59, Line60, Line61, Line62, Line63, Line64,
    Line65, Line66, Line67, Line68, Line69, Line70, Line71, Line72,
    Line73, Line74, Line75, Line76, Line77, Line78, Line79, Line80,
    Line81, Line82, Line83, Line84, Line85, Line86, Line87, Line88,
    Line89, Line90, Line91, Line92, Line93, Line94, Line95, Line96,
    Line97, Line98, Line99, Line100, Line101, Line102, Line103, Line104,
    Line105, Line106, Line107, Line108, Line109, Line110, Line111, Line112,
    Line113, Line114, Line115, Line116, Line117, Line118, Line119, Line120,
    Line121, Line122, Line123, Line124, Line125, Line126, Line127, Line128,
    Line129, Line130, Line131, Line132, Line133, Line134, Line135, Line136,
    Line137, Line138, Line139, Line140, Line141, Line142, Line143, Line144,
    Line145, Line146, Line147, Line148, Line149, Line150, Line151, Line152,
    Line153, Line154, Line155, Line156, Line157, Line158, Line159, Line160,
    Line161, Line162, Line163, Line164, Line165, Line166, Line167, Line168,
    Line169, Line170, Line171, Line172, Line173, Line174, Line175, Line176,
    Line177, Line178, Line179, Line180, Line181, Line182, Line183, Line184,
    Line185, Line186, Line187, Line188, Line189, Line190, Line191, Line192,
    Line193, Line194, Line195, Line196, Line197, Line198, Line199, Line200,
    Line201, Line202, Line203, Line204, Line205, Line206, Line207, Line208,
    Line209, Line210, Line211, Line212, Line213, Line214, Line215, Line216,
    Line217, Line218, Line219, Line220, Line221, Line222, Line223, Line224,
    Line225, Line226, Line227, Line228, Line229, Line230, Line231, Line232,
    Line233, Line234, Line235, Line236, Line237, Line238, Line239, Line240,
    Line241, Line242
  ]

  const Line245: Rule := Rule("entry, 430 E St NW, WDC", "430 E St NW")
  const Line246: Rule := Rule("Glass Entry 430 E St., NW Wash DC", "430 E St NW")
  const Line247: Rule := Rule("Glass entry 430 E St NW. WDC", "430 E St NW")
  const Line248: Rule := Rule("Glass entry, 430 E ST., NW WDC", "430 E St NW")
  const Line249: Rule := Rule("Glass entry, 430 E St NW, WDC", "430 E St NW")
  const Line250: Rule := Rule("Glass entry, 430 E St., NW WDC", "430 E St NW")
  const Line251: Rule := Rule("Glass entry, 430 E St., NW WDC 20001", "430 E St NW")
  const Line252: Rule := Rule("Glass entry, 430 E St., NW, WDC", "430 E St NW")
  const Line253: Rule := Rule("Glass entry, 430 E st., NW WDC 20001", "430 E St NW")
  const Line254: Rule := Rule("Glass entry, west side 430 E St., NW WDC", "430 E St NW")
  const Line255: Rule := Rule("entry, 430 E St NW WDC", "430 E St NW")
  const Line256: Rule := Rule("entry, 430 E St NW, WDC", "430 E St NW")
  const Line257: Rule := Rule("glass entry 430 E St., NW", "430 E St NW")
  const Line258: Rule := Rule("glass entry, 430 E St NW, WDC", "430 E St NW")
  const Line259: Rule := Rule("glass entry, 430 E St., NW, WDC", "430 E St NW")
  const Line260: Rule := Rule("Found at NW corner (8th & P side) of the newer apartment building at 1490 7th St NW (the north half of the building containing the Giant).", "1490 7th St NW")
  const Line261: Rule := Rule("Whole Foods, 6th St, NE", "600 H St NE")
  const Line262: Rule := Rule("Glass entry, 430 E ST.", "430 E St NW")
  const Line263: Rule := Rule("Glass entry 430 E St NW. WDC", "430 E St NW")
  const Line264: Rule := Rule("Glass entry, 430 E St., NW", "430 E St NW")
  const Line265: Rule := Rule("Glass entry, 430 E st., NW", "430 E St NW")
  const Line266: Rule := Rule("Glass entry, 430 E ST., NW ", "430 E St NW")
  const Line267: Rule := Rule("Glass entry, 430 E ST., NW ", "430 E St NW")
  const Line268: Rule := Rule("Glass entry, 430 E St NW, WDC", "430 E St NW")
  const Line269: Rule := Rule("Glass entry, 430 E St NW, WDC", "430 E St NW")
  const Line270: Rule := Rule("Glass entry, 430 E St., NW", "430 E St NW")
  const Line271: Rule := Rule("Glass entry, 430 E St., NW, WDC", "430 E St NW")
  const Line272: Rule := Rule("Glass entry, west side", "Unknown")
  const Line273: Rule := Rule("glass entry, 430 E St NW, WDC", "430 E St NW")
  const Line274: Rule := Rule("430 E St. NW, glass entry", "430 E St NW")
  const Line275: Rule := Rule("glass entry 430 E St., NW", "430 E St NW")
  const Line276: Rule := Rule("glass entry 430 E St., NW", "430 E St NW")
  const Line277: Rule := Rule("entry, 430 E St NW", "430 E St NW")
  const Line278: Rule := Rule("entry, 430 E St NW, WDC", "430 E St NW")
  const Line279: Rule := Rule("Eagle Bank, NW corner, 20th and K Sts. NW", "20th St NW and K St NW")
  const Line280: Rule := Rule("NW corner, 18th and K Sts. NW", "18th St and K St NW")
  const Line281: Rule := Rule("1000, Massachusetts Ave NW ", "1000 Massachusetts Ave NW")
  const Line282: Rule := Rule("950 - 980 Maine SW, east side between buildings", "950-980 Maine Ave SW")
  const Line283: Rule := Rule("Alley, Capitol Hill", "Unknown")
  const Line284: Rule := Rule("2701 MLK Ave SE", "2701 Martin Luther King Jr Ave SE")
  const Line285: Rule := Rule("1 Columbus Circle NE Building", "1 Columbus Circle NE")
  const Line286: Rule := Rule("glass entry, 430 E St NW, WDC", "430 E St NW")
  const Line287: Rule := Rule("430 E St. NW, glass entry", "430 E St NW")
  const Line288: Rule := Rule("glass entry, 430 E St., NW, WDC", "430 E St NW")
  const Line289: Rule := Rule("glass entry 430 E St., NW", "430 E St NW")

  /** The pre-cleaning substring rules (PRE_CLEAN_ADDRESS_REPLACEMENTS). */
  const PreCleanAddressReplacements: seq<Rule> := [
    Line245, Line246, Line247, Line248, Line249, Line250, Line251, Line252,
    Line253, Line254, Line255, Line256, Line257, Line258, Line259, Line260,
    Line261, Line262, Line263, Line264, Line265, Line266, Line267, Line268,
    Line269, Line270, Line271, Line272, Line273, Line274, Line275, Line276,
    Line277, Line278, Line279, Line280, Line281, Line282, Line283, Line284,
    Line285, Line286, Line287, Line288, Line289
  ]

  const Line415: Rule := Rule("1 Columbus Circle NW", "1 Columbus Circle NE")
  const Line416: Rule := Rule("1 Columbus Circle", "1 Columbus Circle NE")
  const Line417: Rule := Rule("920 Mass", "920 Massachusetts Ave NW")
  const Line418: Rule := Rule("900 Mass", "900 Massachusetts Ave NW")
  const Line419: Rule := Rule("1 Dupont Circle NW side", "1 Dupont Circle NW")
  const Line420: Rule := Rule("801 Mt Vernon Pl NW corner at 7th and New York Ave NW", "801 Mt Vernon Pl NW")
  const Line421: Rule := Rule("850 10th St NW at the corner with Palmer Alley NW", "850 10th St NW")
  const Line422: Rule := Rule("931 H St NW or 900 Palmer Alley NW", "900 Palmer Alley NW")
  const Line423: Rule := Rule("Across from 1813 Wiltberger NW", "1813 Wiltberger NW")
  const Line424: Rule := Rule("ATF Building", "99 New York Ave NE")
  const Line425: Rule := Rule("Alley", "Unknown")
  const Line426: Rule := Rule("BB and T Bank", "Unknown")
  const Line427: Rule := Rule("Capital City Charter School", "100 Peabody St NW")
  const Line428: Rule := Rule("Connecticut Ave NW M St NW", "Connecticut Ave and M St NW")
  const Line429: Rule := Rule("Constitution Ave NW 10th St NW", "Constitution Ave and 10th St NW")
  const Line430: Rule := Rule("Convention Center NW", "801 Mt Vernon Pl NW")
  const Line431: Rule := Rule("Convention Center", "801 Mt Vernon Pl NW")
  const Line432: Rule := Rule("DOE Building", "1000 Independence Avenue SW")
  const Line433: Rule := Rule("Lauinger Library", "3700 O St NW")
  const Line434: Rule := Rule("Lincoln Memorial", "2 Lincoln Memorial Cir NW")
  const Line435: Rule := Rule("M St NW 17th St NW", "M St and 17th St NW")
  const Line436: Rule := Rule("M St and 17th Tt NW", "M St and 17th St NW")
  const Line437: Rule := Rule("Found at NW corner", "1490 7th St NW")
  const Line438: Rule := Rule("NW corner", "18th St and K St NW")
  const Line439: Rule := Rule("O'Neill Federal Building", "200 C Street SW")
  const Line440: Rule := Rule("The 3001 Connecticut Ave NW", "3001 Connecticut Ave NW")
  const Line441: Rule := Rule("US Botanic Garden", "100 Maryland Ave SW")
  const Line442: Rule := Rule("US Botanic Garden atrium", "100 Maryland Ave SW")
  const Line443: Rule := Rule("US Capitol", "First St SE")
  const Line444: Rule := Rule("Union Station", "50 Massachusetts Ave NE")
  const Line445: Rule := Rule("Verizon Center", "601 F St NW")
  const Line446: Rule := Rule("Whole Foods", "Unknown")
  const Line447: Rule := Rule("Wisc and Massachusetts Ave NW", "Wisc Ave and Massachusetts Ave NW")
  const Line448: Rule := Rule("entry", "430 E St NW")
  const Line449: Rule := Rule("glass entry", "430 E St NW")
  const Line450: Rule := Rule("glass entry 430 NW", "430 E St NW")
  const Line451: Rule := Rule("1000", "1000 Massachusetts Ave NW")
  const Line452: Rule := Rule("Glass entry", "430 E St NW")
  const Line453: Rule := Rule("430 E", "430 E St NW")
  const Line454: Rule := Rule("430 NW", "430 E St NW")

  /** The exact remapping at the end of address cleaning. */
  const FinalAddressRemap: seq<Rule> := [
    Line415, Line416, Line417, Line418, Line419, Line420, Line421, Line422,
    Line423, Line424, Line425, Line426, Line427, Line428, Line429, Line430,
    Line431, Line432, Line433, Line434, Line435, Line436, Line437, Line438,
    Line439, Line440, Line441, Line442, Line443, Line444, Line445, Line446,
    Line447, Line448, Line449, Line450, Line451, Line452, Line453, Line454
  ]

  const Line294a: Rule := Rule("?", "")
  const Line294b: Rule := Rule("sp.", "species")
  const Line295: Rule := Rule(" Breasted", "-Breasted")
  const Line296: Rule := Rule(" Feathers Only)", "")
  const Line297: Rule := Rule("Sp.", "Species")
  const Line298: Rule := Rule("Grey", "Gray")

  /** Substring rules for bird names (BIRD_SUBSTRING_MAPPINGS). */
  const BirdSubstringMappings: seq<Rule> := [
    Line294a, Line294b, Line295, Line296, Line297, Line298
  ]

  const Line302: Rule := Rule("Dove/Pigeon", "Rock Dove")
  const Line303: Rule := Rule("Rock Pigeon", "Rock Dove")
  const Line304: Rule := Rule("Pigeon/Rock Dove", "Rock Dove")
  const Line305: Rule := Rule("Empidonax", "Empidonax Species")
  const Line306: Rule := Rule("Empid. Flycatcher", "Empidonax Species")
  const Line307: Rule := Rule("Needs Id See Photo", "Unknown")
  const Line308: Rule := Rule("Alder", "Alder Flycatcher")
  const Line309: Rule := Rule("", "Unknown")
  const Line310: Rule := Rule("Black And White Warbler", "Black-And-White Warbler")
  const Line311: Rule := Rule("Black Throated Blue Warbler", "Black-Throated Blue Warbler")
  const Line312: Rule := Rule("Black Throated Green Warbler", "Black-Throated Green Warbler")
  const Line313: Rule := Rule("Blue-Throated Black Warbler", "Black-Throated Blue Warbler")
  const Line314: Rule := Rule("Clay Colored Or Chipping Sparrow", "Sparrow Species")
  const Line315: Rule := Rule("Dark Eyed Junco", "Dark-Eyed Junco")
  const Line316: Rule := Rule("Eastern Wood Pewee", "Eastern Wood-Pewee")
  const Line317: Rule := Rule("Empidonax Flycatcher Species Species Flycatcher", "Empidonax Species")
  const Line318: Rule := Rule("Empidomax Species", "Empidonax Species")
  const Line319: Rule := Rule("Flicker", "Northern Flicker")
  const Line320: Rule := Rule("Flycatcher", "Empidonax Species")
  const Line321: Rule := Rule("Black-Throated Blue", "Black-Throated Blue Warbler")
  const Line322: Rule := Rule("Gray Cheeked Thrush", "Gray-Cheeked Thrush")
  const Line323: Rule := Rule("Junco", "Dark-Eyed Junco")
  const Line324: Rule := Rule("Likely A Warbler", "Warbler Species")
  const Line325: Rule := Rule("Kinglet", "Kinglet Species")
  const Line326: Rule := Rule("Mallard", "Mallard Duck")
  const Line327: Rule := Rule("Mourning Or Connecticut Warbler", "Warbler Species")
  const Line328: Rule := Rule("Northern Parula Warbler", "Northern Parula")
  const Line329: Rule := Rule("Northern Water Thrush", "Northern Waterthrush")
  const Line330: Rule := Rule("Nuthatch", "Nuthatch Species")
  const Line331: Rule := Rule("Ovenbird--1 Of 2 Found", "Ovenbird")
  const Line332: Rule := Rule("Pewee And Flycatcher", "Empidonax Species")
  const Line333: Rule := Rule("Pied Billed Grebe", "Pied-Billed Grebe")
  const Line334: Rule := Rule("Pigeon", "Rock Dove")
  const Line335: Rule := Rule("Red Bellied Woodpecker", "Red-Bellied Woodpecker")
  const Line336: Rule := Rule("Red Eyed Vireo", "Red-Eyed Vireo")
  const Line337: Rule := Rule("Robin", "American Robin")
  const Line338: Rule := Rule("Rock Dove/Pigeon", "Rock Dove")
  const Line339: Rule := Rule("Ruby Crowned Kinglet", "Ruby-Crowned Kinglet")
  const Line340: Rule := Rule("Ruby Throated Hummingbird", "Ruby-Throated Hummingbird")
  const Line341: Rule := Rule("Rufous Sided Towhee", "Rufous-Sided Towhee")
  const Line342: Rule := Rule("Savannah", "Savannah Sparrow")
  const Line343: Rule := Rule("Sparrow", "Sparrow Species")
  const Line344: Rule := Rule("Swainsons Thrush", "Swainson's Thrush")
  const Line345: Rule := Rule("Swaison's Thrush", "Swainson's Thrush")
  const Line346: Rule := Rule("Tennesee Warbler", "Tennessee Warbler")
  const Line347: Rule := Rule("Thrush Or Sparrow", "Unknown")
  const Line348: Rule := Rule("Thrush", "Thrush Species")
  const Line349: Rule := Rule("Warbler Species - Possible Yellow-Rumped", "Warbler Species")
  const Line350: Rule := Rule("White Throated Sparrow", "White-Throated Sparrow")
  const Line351: Rule := Rule("Whippoorwill", "Whip-Poor-Will")
  const Line352: Rule := Rule("Woodcock", "American Woodcock")
  const Line353: Rule := Rule("Woodpecker", "Woodpecker Species")
  const Line354: Rule := Rule("Yellow Bellied Sapsucker", "Yellow-Bellied Sapsucker")
  const Line355: Rule := Rule("Yellow Billed Cuckoo", "Yellow-Billed Cuckoo")
  const Line356: Rule := Rule("Yellow Rumped Warbler", "Yellow-Rumped Warbler")
  const Line357: Rule := Rule("Yellowbreasted Flycatcher", "Yellow-Bellied Flycatcher")
  const Line358: Rule := Rule("Yellowthroat", "Common Yellowthroat")
  const Line359: Rule := Rule("Cardinal", "American Cardinal")
  const Line360: Rule := Rule("Catbird", "Gray Catbird")
  const Line361: Rule := Rule("Golden Crowned Kinglet", "Golden-Crowned Kinglet")
  const Line362: Rule := Rule("Goldfinch", "American Goldfinch")
  const Line363: Rule := Rule("Grackle", "Common Grackle")
  const Line364: Rule := Rule("Hummingbird", "Hummingbird Species")
  const Line365: Rule := Rule("Parula Warbler", "Northern Parula")
  const Line366: Rule := Rule("Starling", "European Starling")
  const Line367: Rule := Rule("Warbler", "Warbler Species")
  const Line368: Rule := Rule("Empidonax Species Flycatcher", "Empidonax Species")
  const Line369: Rule := Rule("Mockingbird", "Northern Mockingbird")

  /** Exact remapping of bird names (BIRD_REPLACEMENTS), in runs of ten source lines. */
  const BirdReplacements: seq<Rule> :=
    BirdRules302 + BirdRules310 + BirdRules320 + BirdRules330 + BirdRules340 + BirdRules350 + BirdRules360

  const BirdRules302: seq<Rule> := [
    Line302, Line303, Line304, Line305, Line306,
    Line307, Line308, Line309
  ]
  const BirdRules310: seq<Rule> := [
    Line310, Line311, Line312, Line313, Line314,
    Line315, Line316, Line317, Line318, Line319
  ]
  const BirdRules320: seq<Rule> := [
    Line320, Line321, Line322, Line323, Line324,
    Line325, Line326, Line327, Line328, Line329
  ]
  const BirdRules330: seq<Rule> := [
    Line330, Line331, Line332, Line333, Line334,
    Line335, Line336, Line337, Line338, Line339
  ]
  const BirdRules340: seq<Rule> := [
    Line340, Line341, Line342, Line343, Line344,
    Line345, Line346, Line347, Line348, Line349
  ]
  const BirdRules350: seq<Rule> := [
    Line350, Line351, Line352, Line353, Line354,
    Line355, Line356, Line357, Line358, Line359
  ]
  const BirdRules360: seq<Rule> := [
    Line360, Line361, Line362, Line363, Line364,
    Line365, Line366, Line367, Line368, Line369
  ]

  /** Words after which the rest of an address is dropped. */
  const AddressEndings: seq<string> := ["Condominiums", "Library"]
  /** The city quadrants. */
  const Directions: seq<string> := ["NE", "NW", "SE", "SW"]
  /** Streets that get the `NW` quadrant when an address ends with them. */
  const NeedsNw: seq<string> := ["Massachusetts Ave", "I St", "Palmer Alley", "New York Ave", "New Jersey Ave", "Wisconsin Ave", "901 4th St"]

  /** The canonical address column. */
  const DefaultAddrCol: string := "Address where found"
  /** Every column an address may be found in, in order of preference. */
  const AltAddrCols: seq<string> := ["Address where found", "Chinatown Route: Closest Address", "Union Station  Route: Closest Address", "address1", "address2", "Street Address", "Location Found", "Street Address Where Found", "notes", "Location ", "Location", "Location                          (all District of Columbia addresses)"]
  /** The canonical bird column. */
  const DefaultBirdCol: string := "Bird Species, if known"
  /** Every column a bird may be found in, in order of preference. */
  const AltBirdCols: seq<string> := ["Bird Species, if known", "Species", "species"]
  /** The columns of a cleaned row. */
  const CleanSheetCols: seq<string> := ["Date", "Bird Species, if known", "Clean Bird Species", "Sex, if known", "Address where found", "Clean Address", "CW Number", "Disposition", "Status: Released-- Nearest address/landmark", "Last Name", "What route?", "Status", "Approx. time you found the bird"]
}
