/** The published constant tables of sirna_scores.py, transcribed digit for
    digit (weights as exact decimals). Columns are in the order A, C, G, U. */
module SirnaTables {

  /** A PWM row: one weight per base A, C, G, U. */
  type Row = r: seq<real> | |r| == 4 witness [0.0, 0.0, 0.0, 0.0]

  /** The row with weights `a`, `c`, `g`, `u` for A, C, G, U. */
  function Weights(a: real, c: real, g: real, u: real): Row
  {
    [a, c, g, u]
  }

  /** A motif of the DSIR spectrum with its weight. */
  datatype SpectrumEntry = SpectrumEntry(motif: string, weight: real)

  /** DSIR spectrum-21 motif weights, in the order the source lists them (35 entries). */
  const DsirSpectrum21: seq<SpectrumEntry> := [
    SpectrumEntry("CC", -0.003932307),
    SpectrumEntry("CG", -0.002849292),
    SpectrumEntry("GG", -0.01153317),
    SpectrumEntry("UA", 0.005858523),
    SpectrumEntry("UC", 0.002756727),
    SpectrumEntry("AAA", -0.007093154),
    SpectrumEntry("AAC", 0.01706775),
    SpectrumEntry("AAG", 0.001577039),
    SpectrumEntry("ACA", 0.0163371),
    SpectrumEntry("ACG", -0.01024546),
    SpectrumEntry("ACU", 0.01057124),
    SpectrumEntry("AGA", -0.002840863),
    SpectrumEntry("AGC", 0.001306096),
    SpectrumEntry("AGU", 0.0003593278),
    SpectrumEntry("AUC", 0.006090182),
    SpectrumEntry("AUG", -0.002284597),
    SpectrumEntry("CCC", -0.02771415),
    SpectrumEntry("CGA", -0.005897083),
    SpectrumEntry("CGG", -0.0004771073),
    SpectrumEntry("CUC", -0.01012959),
    SpectrumEntry("GAU", -0.006603347),
    SpectrumEntry("GCC", -0.02225377),
    SpectrumEntry("GCG", -0.01653585),
    SpectrumEntry("GGC", -0.02075344),
    SpectrumEntry("GGG", -0.009166488),
    SpectrumEntry("GUC", 0.002456783),
    SpectrumEntry("GUU", -0.01122454),
    SpectrumEntry("UAG", 0.01687206),
    SpectrumEntry("UAU", 0.0009991506),
    SpectrumEntry("UCG", 0.02439596),
    SpectrumEntry("UCU", 0.01743714),
    SpectrumEntry("UGA", 0.008405265),
    SpectrumEntry("UGU", 0.004634205),
    SpectrumEntry("UUG", 0.01635677),
    SpectrumEntry("UUU", -0.0007407731)
  ]

  /** DSIR sparse-21 position weight matrix, antisense 21-mer (21 x 4). */
  const DsirSparse21: seq<Row> := [
    Weights(0.1034911, 0.0, -0.01902813, 0.1721253),
    Weights(0.0, -0.05682008, -0.05498681, 0.007134196),
    Weights(0.007138161, -0.01702346, 0.0, 0.0),
    Weights(0.01370094, -0.003464999, 0.0, 0.0),
    Weights(0.0, -0.003201931, 0.0, 0.0),
    Weights(-0.01757542, 0.0, 0.0, 0.008817762),
    Weights(0.002083753, -0.04129517, -0.002207137, 0.0),
    Weights(-0.004060712, 0.0001684693, -0.001775484, 0.0),
    Weights(-0.009667309, 0.005009017, 0.0, 0.0),
    Weights(0.02766501, 0.0, 0.009232002, -0.009436056),
    Weights(0.0, 0.0, 0.0, 0.0),
    Weights(0.0, 0.001366547, 0.0, 0.0),
    Weights(0.008966958, 0.0, -0.002907738, 0.0),
    Weights(0.0002572483, 0.0, -0.03721179, 0.0),
    Weights(-0.01430617, 0.004745051, 0.0, -0.009492091),
    Weights(0.002485228, 0.0, 0.0, -0.01307864),
    Weights(0.0, 0.006607245, -0.0007780886, 0.0),
    Weights(-0.04872041, 0.02892875, 0.0, -0.01385716),
    Weights(-0.0538126, 0.07225799, 0.05193115, 0.0),
    Weights(-0.01070109, -0.02676219, 0.0, 0.005234203),
    Weights(0.0, -0.05839426, 0.01453252, 0.0)
  ]

  /** Katoh micro-effect PWM, sense 19-mer (19 x 4). */
  const MicroKatoh: seq<Row> := [
    Weights(-1.555, 3.136, 3.492, -3.155),
    Weights(-2.237, -0.067, 0.364, -1.856),
    Weights(1.19, -0.808, -1.226, -0.341),
    Weights(-0.179, -0.136, -1.362, 0.07),
    Weights(-0.154, 0.698, -0.454, -2.258),
    Weights(3.034, -4.081, 0.387, -1.407),
    Weights(3.038, -2.676, 0.637, -1.44),
    Weights(2.341, -0.317, -0.735, -2.697),
    Weights(-2.028, 1.935, -0.938, 2.113),
    Weights(-1.455, -0.126, -0.787, 2.521),
    Weights(-0.938, -1.119, 0.614, -0.136),
    Weights(1.112, -1.279, -0.177, -1.519),
    Weights(2.601, -1.296, -2.095, 0.2),
    Weights(2.092, -1.388, 1.037, -2.258),
    Weights(1.797, -1.801, 1.962, -1.356),
    Weights(2.758, -1.491, -2.188, 2.128),
    Weights(0.915, -1.119, -1.09, -1.295),
    Weights(1.971, -0.53, -2.853, 2.482),
    Weights(5.31, -2.627, -2.785, 1.354)
  ]

  /** Katoh macro weights Pa, Pc, Pg, Pu (sense 19-mer). */
  const MacroKatoh: Row := [6.073, 0.304, 1.265, 5.111]

  /** sBiopredsi PWM, sense 21-mer (21 x 4). */
  const SBiopredsiPwm: seq<Row> := [
    Weights(0.122562328943018, 0.33706889764487, -0.493682137955993, 0.034050911368105),
    Weights(0.199770705864379, 0.0940785052867202, -0.214309709924039, -0.0795395012270602),
    Weights(-0.191261671166253, 0.394463650967988, 0.471460725387953, -0.674662705189688),
    Weights(-0.000809566252917729, 0.054510925854472, 0.331933668008531, -0.385635027610085),
    Weights(0.099264124877664, -0.14751335282012, 0.0353863772920574, 0.0128628506503986),
    Weights(-0.0485723732993568, -0.0950757876526501, -0.0197787153749778, 0.163426876326985),
    Weights(0.0197995457567793, -0.0640742009529765, 0.0517871012927189, -0.0075124460965217),
    Weights(0.236584489707767, -0.392892634338025, 0.00508243649394087, 0.151225708136317),
    Weights(0.0912473059279591, -0.153846043872856, -0.115891090136529, 0.178489828081426),
    Weights(0.0461984054908072, -0.0726712088915075, -0.0302677450148171, 0.0567405484155174),
    Weights(0.0958521152433313, -0.120910870539342, -0.143234372142315, 0.168293127438326),
    Weights(-0.120734580166361, -0.0171956422019929, -0.160479455766972, 0.298409678135326),
    Weights(0.152434813120487, -0.120812260990701, 0.0349544804811741, -0.0665770326109601),
    Weights(0.135123334724672, -0.162962644130062, 0.0208038865888445, 0.0070354228165455),
    Weights(0.209519491263256, -0.0367328948253503, -0.392476935726244, 0.219690339288338),
    Weights(0.240908931114548, -0.0415245389715574, -0.0491277555195498, -0.150256636623441),
    Weights(0.116613628474749, -0.0815556466264104, -0.125498606880402, 0.0904406250320634),
    Weights(0.0786355957967573, -0.1054036260082, -0.137586003470488, 0.164354033681931),
    Weights(0.107775984404941, -0.078168890746038, -0.21841866273526, 0.188811569076357),
    Weights(0.466991470143507, -0.416985564546215, -0.368410735768436, 0.318404830171144),
    Weights(1.1624724676963, -0.865173403085021, -0.652772391206742, 0.355473326595463)
  ]

  /** iScore PWM, antisense 19-mer (19 x 4). */
  const IScorePwm: seq<Row> := [
    Weights(6.74, -3.92, -6.85, 14.43),
    Weights(5.96, -1.55, -1.03, 7.03),
    Weights(5.16, -0.07, 1.54, 3.79),
    Weights(4.34, 1.03, 1.94, 3.1),
    Weights(3.19, 1.55, 1.39, 4.28),
    Weights(1.54, 1.61, 2.3, 4.96),
    Weights(4.79, -1.46, 1.73, 5.35),
    Weights(2.99, 2.29, 1.37, 3.76),
    Weights(2.49, 2.91, 1.44, 3.56),
    Weights(5.75, 1.19, 2.3, 1.16),
    Weights(3.36, 1.57, 1.28, 4.2),
    Weights(3.19, 2.37, 1.48, 3.38),
    Weights(4.15, 1.65, 0.85, 3.76),
    Weights(4.41, 2.57, -1.22, 4.64),
    Weights(2.43, 3.17, 2.06, 2.75),
    Weights(4.12, 2.24, 1.57, 2.47),
    Weights(3.0, 2.66, 1.12, 3.63),
    Weights(-1.13, 6.08, 3.11, 2.35),
    Weights(-4.02, 8.02, 6.39, 0.02)
  ]

  /** Dharmacon PWM of March 2025, antisense 19-mer (19 x 4). */
  const DharmPwm: seq<Row> := [
    Weights(6.57831431, -4.57608743, -3.58393026, 12.46139671),
    Weights(6.59078986, -1.03081689, -1.84931963, 7.16904),
    Weights(4.74823135, -0.57809292, 0.53845075, 6.17110415),
    Weights(1.16403921, 5.10222477, 0.03280701, 4.58062234),
    Weights(0.31774508, 4.54404767, 0.91744062, 5.10045996),
    Weights(0.61069343, 7.34230323, 0.6266646, 2.30003207),
    Weights(5.96625827, -4.43507956, 1.44984133, 7.89867329),
    Weights(3.2112489, 4.89904944, 0.95821142, 1.81118356),
    Weights(2.86874577, 2.60337925, 2.85449805, 2.55307025),
    Weights(7.38008918, -0.83092216, 2.5847085, 1.74581781),
    Weights(1.68711445, 3.63670132, 3.61322799, 1.94264957),
    Weights(0.34167108, 4.79629925, 0.90358063, 4.83814238),
    Weights(2.54581414, 2.60342, -2.78438796, 8.51484715),
    Weights(4.62805863, 2.94828532, -3.26616529, 6.56951467),
    Weights(1.71303246, 1.17701633, -0.22683024, 8.21647477),
    Weights(2.5808466, -0.55030554, 3.7395481, 5.10960417),
    Weights(3.72014753, 4.27111451, -3.63026765, 6.51869894),
    Weights(0.33960832, 4.52627313, 3.15845428, 2.8553576),
    Weights(-0.50375483, 6.22059019, 4.24604641, 0.91681156)
  ]

}
