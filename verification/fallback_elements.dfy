/**
 * The drawing elements the fallback builders of generate-svg.ts place in
 * their frame, one constant per keyword category, character for character
 * as the template literals hold them (line breaks and indentation included).
 */
module FallbackElements {

  // generate-svg.ts lines 95-103
  const SpaceElements: string := "\n          <circle cx=\"250\" cy=\"150\" r=\"30\" fill=\"hsl(var(--primary))\" opacity=\"0.8\"/>\n          <text x=\"250\" y=\"155\" text-anchor=\"middle\" fill=\"white\" font-size=\"12\">Güneş</text>\n          <circle cx=\"150\" cy=\"150\" r=\"8\" fill=\"hsl(var(--secondary))\"/>\n          <circle cx=\"200\" cy=\"150\" r=\"12\" fill=\"hsl(var(--accent))\"/>\n          <circle cx=\"300\" cy=\"150\" r=\"10\" fill=\"hsl(var(--destructive))\"/>\n          <circle cx=\"350\" cy=\"150\" r=\"15\" fill=\"hsl(var(--constructive))\"/>\n          <text x=\"250\" y=\"220\" text-anchor=\"middle\" font-size=\"14\">Güneş Sistemi</text>\n        "

  // generate-svg.ts lines 106-116
  const LegalElements: string := "\n          <defs><marker id=\"arrow\" markerWidth=\"10\" markerHeight=\"10\" refX=\"9\" refY=\"3\" orient=\"auto\"><polygon points=\"0 0, 10 3, 0 6\" fill=\"hsl(var(--foreground))\"/></marker></defs>\n          <rect x=\"50\" y=\"100\" width=\"80\" height=\"40\" fill=\"hsl(var(--primary))\" rx=\"5\"/>\n          <text x=\"90\" y=\"125\" text-anchor=\"middle\" fill=\"white\" font-size=\"12\">Dava</text>\n          <path d=\"M140 120 L180 120\" stroke=\"hsl(var(--foreground))\" stroke-width=\"2\" marker-end=\"url(#arrow)\"/>\n          <rect x=\"190\" y=\"100\" width=\"80\" height=\"40\" fill=\"hsl(var(--secondary))\" rx=\"5\"/>\n          <text x=\"230\" y=\"125\" text-anchor=\"middle\" fill=\"white\" font-size=\"12\">Mahkeme</text>\n          <path d=\"M280 120 L320 120\" stroke=\"hsl(var(--foreground))\" stroke-width=\"2\" marker-end=\"url(#arrow)\"/>\n          <rect x=\"330\" y=\"100\" width=\"80\" height=\"40\" fill=\"hsl(var(--constructive))\" rx=\"5\"/>\n          <text x=\"370\" y=\"125\" text-anchor=\"middle\" fill=\"white\" font-size=\"12\">Karar</text>\n        "

  // generate-svg.ts lines 119-133
  const EducationElements: string := "\n          <defs><marker id=\"arrow\" markerWidth=\"10\" markerHeight=\"10\" refX=\"9\" refY=\"3\" orient=\"auto\"><polygon points=\"0 0, 10 3, 0 6\" fill=\"hsl(var(--foreground))\"/></marker></defs>\n          <rect x=\"100\" y=\"80\" width=\"300\" height=\"140\" fill=\"hsl(var(--muted))\" stroke=\"hsl(var(--border))\" stroke-width=\"2\" rx=\"10\"/>\n          <circle cx=\"150\" cy=\"120\" r=\"20\" fill=\"hsl(var(--primary))\"/>\n          <text x=\"150\" y=\"125\" text-anchor=\"middle\" fill=\"white\" font-size=\"12\">1</text>\n          <circle cx=\"250\" cy=\"120\" r=\"20\" fill=\"hsl(var(--secondary))\"/>\n          <text x=\"250\" y=\"125\" text-anchor=\"middle\" fill=\"white\" font-size=\"12\">2</text>\n          <circle cx=\"350\" cy=\"120\" r=\"20\" fill=\"hsl(var(--accent))\"/>\n          <text x=\"350\" y=\"125\" text-anchor=\"middle\" fill=\"white\" font-size=\"12\">3</text>\n          <text x=\"150\" y=\"160\" text-anchor=\"middle\" font-size=\"10\">Öğrenme</text>\n          <text x=\"250\" y=\"160\" text-anchor=\"middle\" font-size=\"10\">Uygulama</text>\n          <text x=\"350\" y=\"160\" text-anchor=\"middle\" font-size=\"10\">Değerlendirme</text>\n          <path d=\"M170 120 L230 120\" stroke=\"hsl(var(--foreground))\" stroke-width=\"2\" marker-end=\"url(#arrow)\"/>\n          <path d=\"M270 120 L330 120\" stroke=\"hsl(var(--foreground))\" stroke-width=\"2\" marker-end=\"url(#arrow)\"/>\n        "

  // generate-svg.ts lines 136-150
  const BusinessElements: string := "\n          <defs><marker id=\"arrow\" markerWidth=\"10\" markerHeight=\"10\" refX=\"9\" refY=\"3\" orient=\"auto\"><polygon points=\"0 0, 10 3, 0 6\" fill=\"hsl(var(--foreground))\"/></marker></defs>\n          <rect x=\"50\" y=\"50\" width=\"400\" height=\"200\" fill=\"hsl(var(--muted))\" stroke=\"hsl(var(--border))\" stroke-width=\"2\" rx=\"10\"/>\n          <rect x=\"80\" y=\"100\" width=\"60\" height=\"40\" fill=\"hsl(var(--primary))\" rx=\"5\"/>\n          <text x=\"110\" y=\"125\" text-anchor=\"middle\" fill=\"white\" font-size=\"11\">Başlangıç</text>\n          <rect x=\"180\" y=\"100\" width=\"60\" height=\"40\" fill=\"hsl(var(--secondary))\" rx=\"5\"/>\n          <text x=\"210\" y=\"125\" text-anchor=\"middle\" fill=\"white\" font-size=\"11\">Süreç</text>\n          <rect x=\"280\" y=\"100\" width=\"60\" height=\"40\" fill=\"hsl(var(--accent))\" rx=\"5\"/>\n          <text x=\"310\" y=\"125\" text-anchor=\"middle\" fill=\"white\" font-size=\"11\">Sonuç</text>\n          <rect x=\"380\" y=\"100\" width=\"60\" height=\"40\" fill=\"hsl(var(--constructive))\" rx=\"5\"/>\n          <text x=\"410\" y=\"125\" text-anchor=\"middle\" fill=\"white\" font-size=\"11\">Tamamlama</text>\n          <path d=\"M150 120 L170 120\" stroke=\"hsl(var(--foreground))\" stroke-width=\"2\" marker-end=\"url(#arrow)\"/>\n          <path d=\"M250 120 L270 120\" stroke=\"hsl(var(--foreground))\" stroke-width=\"2\" marker-end=\"url(#arrow)\"/>\n          <path d=\"M350 120 L370 120\" stroke=\"hsl(var(--foreground))\" stroke-width=\"2\" marker-end=\"url(#arrow)\"/>\n        "

  // generate-svg.ts lines 153-164
  const GenericVisualElements: string := "\n          <defs><marker id=\"arrow\" markerWidth=\"10\" markerHeight=\"10\" refX=\"9\" refY=\"3\" orient=\"auto\"><polygon points=\"0 0, 10 3, 0 6\" fill=\"hsl(var(--foreground))\"/></marker></defs>\n          <rect x=\"100\" y=\"100\" width=\"300\" height=\"100\" fill=\"hsl(var(--muted))\" stroke=\"hsl(var(--border))\" stroke-width=\"2\" rx=\"10\"/>\n          <circle cx=\"150\" cy=\"150\" r=\"25\" fill=\"hsl(var(--primary))\"/>\n          <text x=\"150\" y=\"155\" text-anchor=\"middle\" fill=\"white\" font-size=\"12\">?</text>\n          <circle cx=\"250\" cy=\"150\" r=\"25\" fill=\"hsl(var(--secondary))\"/>\n          <text x=\"250\" y=\"155\" text-anchor=\"middle\" fill=\"white\" font-size=\"12\">!</text>\n          <circle cx=\"350\" cy=\"150\" r=\"25\" fill=\"hsl(var(--accent))\"/>\n          <text x=\"350\" y=\"155\" text-anchor=\"middle\" fill=\"white\" font-size=\"12\">✓</text>\n          <path d=\"M175 150 L225 150\" stroke=\"hsl(var(--foreground))\" stroke-width=\"2\" marker-end=\"url(#arrow)\"/>\n          <path d=\"M275 150 L325 150\" stroke=\"hsl(var(--foreground))\" stroke-width=\"2\" marker-end=\"url(#arrow)\"/>\n        "

  // generate-svg.ts lines 268-278
  const ProcessElements: string := "\n          <defs><marker id=\"arrow\" markerWidth=\"10\" markerHeight=\"10\" refX=\"9\" refY=\"3\" orient=\"auto\"><polygon points=\"0 0, 10 3, 0 6\" fill=\"hsl(var(--foreground))\"/></marker></defs>\n          <rect x=\"70\" y=\"120\" width=\"80\" height=\"60\" fill=\"hsl(var(--primary))\" rx=\"10\"/>\n          <text x=\"110\" y=\"155\" text-anchor=\"middle\" fill=\"white\" font-size=\"12\">Başlangıç</text>\n          <path d=\"M160 150 L190 150\" stroke=\"hsl(var(--foreground))\" stroke-width=\"2\" marker-end=\"url(#arrow)\"/>\n          <rect x=\"200\" y=\"120\" width=\"80\" height=\"60\" fill=\"hsl(var(--secondary))\" rx=\"10\"/>\n          <text x=\"240\" y=\"155\" text-anchor=\"middle\" fill=\"white\" font-size=\"12\">İşlem</text>\n          <path d=\"M290 150 L320 150\" stroke=\"hsl(var(--foreground))\" stroke-width=\"2\" marker-end=\"url(#arrow)\"/>\n          <rect x=\"330\" y=\"120\" width=\"80\" height=\"60\" fill=\"hsl(var(--accent))\" rx=\"10\"/>\n          <text x=\"370\" y=\"155\" text-anchor=\"middle\" fill=\"white\" font-size=\"12\">Sonuç</text>\n        "

  // generate-svg.ts lines 281-291
  const HierarchyElements: string := "\n          <defs><marker id=\"arrow\" markerWidth=\"10\" markerHeight=\"10\" refX=\"9\" refY=\"3\" orient=\"auto\"><polygon points=\"0 0, 10 3, 0 6\" fill=\"hsl(var(--foreground))\"/></marker></defs>\n          <rect x=\"200\" y=\"50\" width=\"100\" height=\"50\" fill=\"hsl(var(--primary))\" rx=\"8\"/>\n          <text x=\"250\" y=\"80\" text-anchor=\"middle\" fill=\"white\" font-size=\"12\">Ana Birim</text>\n          <path d=\"M220 110 L170 140\" stroke=\"hsl(var(--foreground))\" stroke-width=\"2\" marker-end=\"url(#arrow)\"/>\n          <path d=\"M280 110 L330 140\" stroke=\"hsl(var(--foreground))\" stroke-width=\"2\" marker-end=\"url(#arrow)\"/>\n          <rect x=\"120\" y=\"150\" width=\"80\" height=\"40\" fill=\"hsl(var(--secondary))\" rx=\"5\"/>\n          <text x=\"160\" y=\"175\" text-anchor=\"middle\" fill=\"white\" font-size=\"11\">Alt Birim 1</text>\n          <rect x=\"300\" y=\"150\" width=\"80\" height=\"40\" fill=\"hsl(var(--secondary))\" rx=\"5\"/>\n          <text x=\"340\" y=\"175\" text-anchor=\"middle\" fill=\"white\" font-size=\"11\">Alt Birim 2</text>\n        "

  // generate-svg.ts lines 294-309
  const FlowElements: string := "\n          <defs><marker id=\"arrow\" markerWidth=\"10\" markerHeight=\"10\" refX=\"9\" refY=\"3\" orient=\"auto\"><polygon points=\"0 0, 10 3, 0 6\" fill=\"hsl(var(--foreground))\"/></marker></defs>\n          <circle cx=\"100\" cy=\"100\" r=\"30\" fill=\"hsl(var(--primary))\"/>\n          <text x=\"100\" y=\"105\" text-anchor=\"middle\" fill=\"white\" font-size=\"12\">Başla</text>\n          <path d=\"M130 100 L170 100\" stroke=\"hsl(var(--foreground))\" stroke-width=\"2\" marker-end=\"url(#arrow)\"/>\n          <polygon points=\"200,80 240,100 200,120 160,100\" fill=\"hsl(var(--secondary))\"/>\n          <text x=\"200\" y=\"105\" text-anchor=\"middle\" fill=\"white\" font-size=\"11\">Karar?</text>\n          <path d=\"M240 100 L280 100\" stroke=\"hsl(var(--foreground))\" stroke-width=\"2\" marker-end=\"url(#arrow)\"/>\n          <text x=\"260\" y=\"95\" text-anchor=\"middle\" fill=\"hsl(var(--foreground))\" font-size=\"10\">Evet</text>\n          <circle cx=\"320\" cy=\"100\" r=\"30\" fill=\"hsl(var(--constructive))\"/>\n          <text x=\"320\" y=\"105\" text-anchor=\"middle\" fill=\"white\" font-size=\"12\">Bitir</text>\n          <path d=\"M200 130 L200 170\" stroke=\"hsl(var(--foreground))\" stroke-width=\"2\" marker-end=\"url(#arrow)\"/>\n          <text x=\"210\" y=\"150\" text-anchor=\"start\" fill=\"hsl(var(--foreground))\" font-size=\"10\">Hayır</text>\n          <rect x=\"160\" y=\"180\" width=\"80\" height=\"40\" fill=\"hsl(var(--destructive))\" rx=\"5\"/>\n          <text x=\"200\" y=\"205\" text-anchor=\"middle\" fill=\"white\" font-size=\"11\">Tekrar Et</text>\n        "

  // generate-svg.ts lines 312-330
  const ComparisonElements: string := "\n          <rect x=\"50\" y=\"80\" width=\"150\" height=\"140\" fill=\"hsl(var(--primary))\" opacity=\"0.2\" stroke=\"hsl(var(--primary))\" stroke-width=\"2\" rx=\"10\"/>\n          <text x=\"125\" y=\"105\" text-anchor=\"middle\" fill=\"hsl(var(--primary))\" font-size=\"14\" font-weight=\"bold\">Seçenek A</text>\n          <circle cx=\"100\" cy=\"140\" r=\"15\" fill=\"hsl(var(--primary))\"/>\n          <text x=\"100\" y=\"145\" text-anchor=\"middle\" fill=\"white\" font-size=\"10\">✓</text>\n          <circle cx=\"150\" cy=\"140\" r=\"15\" fill=\"hsl(var(--primary))\"/>\n          <text x=\"150\" y=\"145\" text-anchor=\"middle\" fill=\"white\" font-size=\"10\">✓</text>\n          <circle cx=\"125\" cy=\"180\" r=\"15\" fill=\"hsl(var(--muted-foreground))\"/>\n          <text x=\"125\" y=\"185\" text-anchor=\"middle\" fill=\"white\" font-size=\"10\">✗</text>\n          \n          <rect x=\"300\" y=\"80\" width=\"150\" height=\"140\" fill=\"hsl(var(--secondary))\" opacity=\"0.2\" stroke=\"hsl(var(--secondary))\" stroke-width=\"2\" rx=\"10\"/>\n          <text x=\"375\" y=\"105\" text-anchor=\"middle\" fill=\"hsl(var(--secondary))\" font-size=\"14\" font-weight=\"bold\">Seçenek B</text>\n          <circle cx=\"350\" cy=\"140\" r=\"15\" fill=\"hsl(var(--secondary))\"/>\n          <text x=\"350\" y=\"145\" text-anchor=\"middle\" fill=\"white\" font-size=\"10\">✓</text>\n          <circle cx=\"400\" cy=\"140\" r=\"15\" fill=\"hsl(var(--muted-foreground))\"/>\n          <text x=\"400\" y=\"145\" text-anchor=\"middle\" fill=\"white\" font-size=\"10\">✗</text>\n          <circle cx=\"375\" cy=\"180\" r=\"15\" fill=\"hsl(var(--secondary))\"/>\n          <text x=\"375\" y=\"185\" text-anchor=\"middle\" fill=\"white\" font-size=\"10\">✓</text>\n        "

  // generate-svg.ts lines 333-345
  const GenericDiagramElements: string := "\n          <defs><marker id=\"arrow\" markerWidth=\"10\" markerHeight=\"10\" refX=\"9\" refY=\"3\" orient=\"auto\"><polygon points=\"0 0, 10 3, 0 6\" fill=\"hsl(var(--foreground))\"/></marker></defs>\n          <rect x=\"100\" y=\"80\" width=\"300\" height=\"140\" fill=\"hsl(var(--muted))\" stroke=\"hsl(var(--border))\" stroke-width=\"2\" rx=\"15\"/>\n          <circle cx=\"180\" cy=\"150\" r=\"25\" fill=\"hsl(var(--primary))\"/>\n          <text x=\"180\" y=\"155\" text-anchor=\"middle\" fill=\"white\" font-size=\"12\">A</text>\n          <circle cx=\"250\" cy=\"120\" r=\"20\" fill=\"hsl(var(--secondary))\"/>\n          <text x=\"250\" y=\"125\" text-anchor=\"middle\" fill=\"white\" font-size=\"12\">B</text>\n          <circle cx=\"320\" cy=\"150\" r=\"25\" fill=\"hsl(var(--accent))\"/>\n          <text x=\"320\" y=\"155\" text-anchor=\"middle\" fill=\"white\" font-size=\"12\">C</text>\n          <path d=\"M205 150 L225 135\" stroke=\"hsl(var(--foreground))\" stroke-width=\"2\" marker-end=\"url(#arrow)\"/>\n          <path d=\"M270 125 L295 140\" stroke=\"hsl(var(--foreground))\" stroke-width=\"2\" marker-end=\"url(#arrow)\"/>\n          <path d=\"M205 150 L295 150\" stroke=\"hsl(var(--foreground))\" stroke-width=\"2\" marker-end=\"url(#arrow)\"/>\n        "
}
